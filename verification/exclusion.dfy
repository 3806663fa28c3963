/** Selecting pixels to exclude from marginal land and blanking them out
  (`coordinates_and_values`, `coordinates_and_threshold`, `remove_pixels`).

  A scan visits the band in row-major order, as `np.where` does, and reports
  every pixel that passes a test with its map coordinates (the raster transform
  applied to (col, row)), its value and its row and column.  The exclusion list
  of the marginal-land calculation concatenates four scans: agro-ecological
  zones with the listed codes, exclusion classes 2 to 7, tree cover above 50 %
  and pasture class 1.  `remove_pixels` then writes NaN at every listed
  (row, col) of a crop raster. */
module Exclusion {
  import opened Grids
  import opened Outcomes
  import opened Georef

  /** One row of the coordinates data frame. */
  datatype PixelHit = PixelHit(lon: real, lat: real, pixel: real, row: nat, col: nat)

  /** `band == code` or `band > threshold`; a missing (NaN) pixel passes neither. */
  datatype Test = Equals(code: real) | Above(threshold: real)

  predicate Passes(test: Test, c: Cell) {
    c.Val? && match test
              case Equals(code) => c.v == code
              case Above(threshold) => c.v > threshold
  }

  /** The data-frame row of the pixel (row, col) holding `value`. */
  function HitAt(t: Affine, row: nat, col: nat, value: real): PixelHit {
    var p := Apply(t, col as real, row as real);
    PixelHit(p.0, p.1, value, row, col)
  }

  /** `h` lies before `k` in row-major order. */
  predicate Before(h: PixelHit, k: PixelHit) {
    h.row < k.row || (h.row == k.row && h.col < k.col)
  }

  /** The passing pixels of row `i` from column `j` on. */
  function RowHits(g: Grid, t: Affine, test: Test, i: nat, j: nat): seq<PixelHit>
    requires i < |g|
    decreases |g[i]| - j
  {
    if j >= |g[i]| then []
    else (if Passes(test, g[i][j]) then [HitAt(t, i, j, g[i][j].v)] else []) + RowHits(g, t, test, i, j + 1)
  }

  /** The passing pixels of the rows from `i` on, in row-major order. */
  function GridHits(g: Grid, t: Affine, test: Test, i: nat): seq<PixelHit>
    decreases |g| - i
  {
    if i >= |g| then [] else RowHits(g, t, test, i, 0) + GridHits(g, t, test, i + 1)
  }

  /** The pixels of the whole band that pass `test`. */
  function Scan(g: Grid, t: Affine, test: Test): seq<PixelHit> {
    GridHits(g, t, test, 0)
  }

  /** `coordinates_and_values`: one scan per listed code, concatenated in the
      order of the list. */
  function CoordinatesAndValues(g: Grid, t: Affine, codes: seq<real>): seq<PixelHit> {
    if |codes| == 0 then [] else CoordinatesAndValues(g, t, codes[..|codes| - 1]) + Scan(g, t, Equals(codes[|codes| - 1]))
  }

  /** `coordinates_and_threshold`: the pixels strictly above `threshold`. */
  function CoordinatesAndThreshold(g: Grid, t: Affine, threshold: real): seq<PixelHit> {
    Scan(g, t, Above(threshold))
  }

  // ---------------------------------------------------------------------------
  // Scans: exactly the passing pixels, in row-major order

  lemma {:induction false} RowHitsExact(g: Grid, t: Affine, test: Test, i: nat, j: nat)
    requires i < |g|
    decreases |g[i]| - j
    ensures forall h :: h in RowHits(g, t, test, i, j) <==>
              h.row == i && j <= h.col < |g[i]| && Passes(test, g[i][h.col]) && h == HitAt(t, i, h.col, g[i][h.col].v)
  {
    if j < |g[i]| {
      RowHitsExact(g, t, test, i, j + 1);
    }
  }

  lemma {:induction false} GridHitsExact(g: Grid, t: Affine, test: Test, i: nat)
    decreases |g| - i
    ensures forall h :: h in GridHits(g, t, test, i) <==>
              i <= h.row && InBounds(g, h.row, h.col) && Passes(test, g[h.row][h.col])
              && h == HitAt(t, h.row, h.col, g[h.row][h.col].v)
  {
    if i < |g| {
      RowHitsExact(g, t, test, i, 0);
      GridHitsExact(g, t, test, i + 1);
    }
  }

  /** A scan reports a pixel if and only if it passes the test, with the pixel's
      map coordinates, row, column and value. */
  lemma ScanExact(g: Grid, t: Affine, test: Test)
    ensures forall h :: h in Scan(g, t, test) <==>
              InBounds(g, h.row, h.col) && Passes(test, g[h.row][h.col]) && h == HitAt(t, h.row, h.col, g[h.row][h.col].v)
  {
    GridHitsExact(g, t, test, 0);
  }

  /** Every passing pixel is reported. */
  lemma ScanComplete(g: Grid, t: Affine, test: Test, row: nat, col: nat)
    requires InBounds(g, row, col) && Passes(test, g[row][col])
    ensures HitAt(t, row, col, g[row][col].v) in Scan(g, t, test)
  {
    ScanExact(g, t, test);
  }

  /** The hits of a row from column `j` on lie in that row, at column `j` or later. */
  lemma {:induction false} RowHitsColumns(g: Grid, t: Affine, test: Test, i: nat, j: nat)
    requires i < |g|
    decreases |g[i]| - j
    ensures forall a :: 0 <= a < |RowHits(g, t, test, i, j)| ==>
              RowHits(g, t, test, i, j)[a].row == i && j <= RowHits(g, t, test, i, j)[a].col < |g[i]|
  {
    if j < |g[i]| {
      RowHitsColumns(g, t, test, i, j + 1);
      var head: seq<PixelHit> := if Passes(test, g[i][j]) then [HitAt(t, i, j, g[i][j].v)] else [];
      var rest := RowHits(g, t, test, i, j + 1);
      assert RowHits(g, t, test, i, j) == head + rest;
      forall a | 0 <= a < |head + rest|
        ensures (head + rest)[a].row == i && j <= (head + rest)[a].col < |g[i]|
      {
        if a >= |head| {
          assert (head + rest)[a] == rest[a - |head|];
        }
      }
    }
  }

  lemma {:induction false} RowHitsOrdered(g: Grid, t: Affine, test: Test, i: nat, j: nat)
    requires i < |g|
    decreases |g[i]| - j
    ensures forall a, b :: 0 <= a < b < |RowHits(g, t, test, i, j)| ==>
              RowHits(g, t, test, i, j)[a].col < RowHits(g, t, test, i, j)[b].col
  {
    if j < |g[i]| {
      RowHitsOrdered(g, t, test, i, j + 1);
      RowHitsColumns(g, t, test, i, j + 1);
      var head: seq<PixelHit> := if Passes(test, g[i][j]) then [HitAt(t, i, j, g[i][j].v)] else [];
      var rest := RowHits(g, t, test, i, j + 1);
      var s := head + rest;
      assert s == RowHits(g, t, test, i, j);
      forall a, b | 0 <= a < b < |s|
        ensures s[a].col < s[b].col
      {
        assert s[b] == rest[b - |head|];
        if a >= |head| {
          assert s[a] == rest[a - |head|];
        }
      }
    }
  }

  lemma {:induction false} GridHitsOrdered(g: Grid, t: Affine, test: Test, i: nat)
    decreases |g| - i
    ensures forall a, b :: 0 <= a < b < |GridHits(g, t, test, i)| ==>
              Before(GridHits(g, t, test, i)[a], GridHits(g, t, test, i)[b])
  {
    if i < |g| {
      var r := RowHits(g, t, test, i, 0);
      var rest := GridHits(g, t, test, i + 1);
      RowHitsOrdered(g, t, test, i, 0);
      GridHitsOrdered(g, t, test, i + 1);
      RowHitsExact(g, t, test, i, 0);
      GridHitsExact(g, t, test, i + 1);
      var s := r + rest;
      forall a, b | 0 <= a < b < |s|
        ensures Before(s[a], s[b])
      {
        if b < |r| {
          assert s[a] == r[a] && s[b] == r[b];
          assert r[a] in r && r[b] in r;
          assert r[a].col < r[b].col;
        } else if a < |r| {
          assert s[a] == r[a] && s[b] == rest[b - |r|];
          assert r[a] in r;
          assert rest[b - |r|] in rest;
        } else {
          assert s[a] == rest[a - |r|] && s[b] == rest[b - |r|];
          assert Before(rest[a - |r|], rest[b - |r|]);
        }
      }
    }
  }

  /** A scan lists its pixels in strict row-major order, so none twice. */
  lemma ScanOrdered(g: Grid, t: Affine, test: Test)
    ensures var s := Scan(g, t, test);
      forall a, b :: 0 <= a < b < |s| ==> Before(s[a], s[b])
  {
    assert Scan(g, t, test) == GridHits(g, t, test, 0);
    GridHitsOrdered(g, t, test, 0);
  }

  /** `coordinates_and_values` returns exactly the pixels holding one of the
      listed codes, each with its own value as `pixel`. */
  lemma {:induction false} CoordinatesAndValuesExact(g: Grid, t: Affine, codes: seq<real>)
    ensures forall h :: h in CoordinatesAndValues(g, t, codes) <==>
              InBounds(g, h.row, h.col) && g[h.row][h.col].Val? && g[h.row][h.col].v in codes
              && h == HitAt(t, h.row, h.col, g[h.row][h.col].v)
  {
    if |codes| > 0 {
      var init := codes[..|codes| - 1];
      CoordinatesAndValuesExact(g, t, init);
      ScanExact(g, t, Equals(codes[|codes| - 1]));
      assert codes == init + [codes[|codes| - 1]];
    }
  }

  /** Scanning two code lists one after the other gives the scans of the
      joined list: the hits are grouped by code, in the order of the list. */
  lemma {:induction false} CoordinatesAndValuesAppend(g: Grid, t: Affine, c1: seq<real>, c2: seq<real>)
    decreases |c2|
    ensures CoordinatesAndValues(g, t, c1 + c2) == CoordinatesAndValues(g, t, c1) + CoordinatesAndValues(g, t, c2)
  {
    if |c2| == 0 {
      assert c1 + c2 == c1;
    } else {
      var init := c2[..|c2| - 1];
      CoordinatesAndValuesAppend(g, t, c1, init);
      assert (c1 + c2)[..|c1 + c2| - 1] == c1 + init;
    }
  }

  /** `coordinates_and_threshold` returns exactly the pixels strictly above the
      threshold, each with its value. */
  lemma CoordinatesAndThresholdExact(g: Grid, t: Affine, threshold: real)
    ensures forall h :: h in CoordinatesAndThreshold(g, t, threshold) <==>
              InBounds(g, h.row, h.col) && g[h.row][h.col].Val? && g[h.row][h.col].v > threshold
              && h == HitAt(t, h.row, h.col, g[h.row][h.col].v)
  {
    ScanExact(g, t, Above(threshold));
  }

  // ---------------------------------------------------------------------------
  // The exclusion list of the marginal-land calculation

  /** Agro-ecological zones excluded from marginal land. */
  const AezCodes: seq<real> := [49.0, 50.0, 52.0, 53.0, 55.0, 56.0, 57.0]
  /** Classes of the exclusion-area raster that are removed. */
  const ExclusionCodes: seq<real> := [2.0, 3.0, 4.0, 5.0, 6.0, 7.0]
  /** Tree-cover share (%) above which a pixel is removed. */
  const TreeThreshold: real := 50.0
  /** Pasture class that is removed. */
  const PastureCodes: seq<real> := [1.0]

  /** A clipped band with its transform. */
  datatype Band = Band(data: Grid, transform: Affine)

  /** `coordinates_all`: the four selections concatenated in this order. */
  function ExcludedPixels(aez: Band, exclusion: Band, tree: Band, pasture: Band): seq<PixelHit> {
    CoordinatesAndValues(aez.data, aez.transform, AezCodes)
    + CoordinatesAndValues(exclusion.data, exclusion.transform, ExclusionCodes)
    + CoordinatesAndThreshold(tree.data, tree.transform, TreeThreshold)
    + CoordinatesAndValues(pasture.data, pasture.transform, PastureCodes)
  }

  /** The (row, col) pairs of the data frame, as `zip(gdf['row'], gdf['col'])` reads them. */
  function RowCols(hits: seq<PixelHit>): (rc: seq<(nat, nat)>)
    ensures |rc| == |hits|
    ensures forall k :: 0 <= k < |hits| ==> rc[k] == (hits[k].row, hits[k].col)
  {
    seq(|hits|, k requires 0 <= k < |hits| => (hits[k].row, hits[k].col))
  }

  lemma RowColsAppend(a: seq<PixelHit>, b: seq<PixelHit>)
    ensures RowCols(a + b) == RowCols(a) + RowCols(b)
  {
  }

  /** A (row, col) pair is listed exactly when some hit sits at that pixel. */
  lemma RowColsMember(hits: seq<PixelHit>, row: nat, col: nat)
    ensures (row, col) in RowCols(hits) <==> exists h :: h in hits && h.row == row && h.col == col
  {
    if (row, col) in RowCols(hits) {
      var k :| 0 <= k < |hits| && RowCols(hits)[k] == (row, col);
      assert hits[k] in hits;
    }
    if h :| h in hits && h.row == row && h.col == col {
      InList(hits, h);
    }
  }

  /** The code rule lists a pixel exactly when the band holds a listed code there. */
  lemma CodesSelect(g: Grid, t: Affine, codes: seq<real>, row: nat, col: nat)
    ensures (row, col) in RowCols(CoordinatesAndValues(g, t, codes)) <==>
              InBounds(g, row, col) && g[row][col].Val? && g[row][col].v in codes
  {
    CoordinatesAndValuesExact(g, t, codes);
    RowColsMember(CoordinatesAndValues(g, t, codes), row, col);
    if InBounds(g, row, col) && g[row][col].Val? && g[row][col].v in codes {
      assert HitAt(t, row, col, g[row][col].v) in CoordinatesAndValues(g, t, codes);
    }
  }

  /** The threshold rule lists a pixel exactly when the band is above it there. */
  lemma ThresholdSelects(g: Grid, t: Affine, threshold: real, row: nat, col: nat)
    ensures (row, col) in RowCols(CoordinatesAndThreshold(g, t, threshold)) <==>
              InBounds(g, row, col) && g[row][col].Val? && g[row][col].v > threshold
  {
    CoordinatesAndThresholdExact(g, t, threshold);
    RowColsMember(CoordinatesAndThreshold(g, t, threshold), row, col);
    if InBounds(g, row, col) && g[row][col].Val? && g[row][col].v > threshold {
      assert HitAt(t, row, col, g[row][col].v) in CoordinatesAndThreshold(g, t, threshold);
    }
  }

  /** A pixel is listed for removal exactly when one of the four rules selects it
      in its own band. */
  lemma ExcludedPixelsExact(aez: Band, exclusion: Band, tree: Band, pasture: Band, row: nat, col: nat)
    ensures (row, col) in RowCols(ExcludedPixels(aez, exclusion, tree, pasture)) <==>
              || (InBounds(aez.data, row, col) && aez.data[row][col].Val? && aez.data[row][col].v in AezCodes)
              || (InBounds(exclusion.data, row, col) && exclusion.data[row][col].Val? && exclusion.data[row][col].v in ExclusionCodes)
              || (InBounds(tree.data, row, col) && tree.data[row][col].Val? && tree.data[row][col].v > TreeThreshold)
              || (InBounds(pasture.data, row, col) && pasture.data[row][col].Val? && pasture.data[row][col].v in PastureCodes)
  {
    var a := CoordinatesAndValues(aez.data, aez.transform, AezCodes);
    var e := CoordinatesAndValues(exclusion.data, exclusion.transform, ExclusionCodes);
    var t := CoordinatesAndThreshold(tree.data, tree.transform, TreeThreshold);
    var p := CoordinatesAndValues(pasture.data, pasture.transform, PastureCodes);
    RowColsAppend(a + e + t, p);
    RowColsAppend(a + e, t);
    RowColsAppend(a, e);
    CodesSelect(aez.data, aez.transform, AezCodes, row, col);
    CodesSelect(exclusion.data, exclusion.transform, ExclusionCodes, row, col);
    ThresholdSelects(tree.data, tree.transform, TreeThreshold, row, col);
    CodesSelect(pasture.data, pasture.transform, PastureCodes, row, col);
  }

  lemma InList(hits: seq<PixelHit>, h: PixelHit)
    requires h in hits
    ensures (h.row, h.col) in RowCols(hits)
  {
    var k :| 0 <= k < |hits| && hits[k] == h;
    assert RowCols(hits)[k] == (h.row, h.col);
  }

  // ---------------------------------------------------------------------------
  // remove_pixels

  /** The index of the first coordinate outside the band, or |coords| if none is. */
  function FirstOutside(data: Grid, coords: seq<(nat, nat)>): (k: nat)
    ensures k <= |coords|
    ensures forall m :: 0 <= m < k ==> InBounds(data, coords[m].0, coords[m].1)
    ensures k < |coords| ==> !InBounds(data, coords[k].0, coords[k].1)
  {
    if |coords| == 0 then 0
    else if !InBounds(data, coords[0].0, coords[0].1) then 0
    else 1 + FirstOutside(data, coords[1..])
  }

  /** `remove_pixels` on the clipped band `data`: every listed (row, col) becomes
      NaN.  The first coordinate outside the band raises IndexError. */
  function RemovePixels(data: Grid, coords: seq<(nat, nat)>): (r: Result<Grid>)
    ensures r.Err? <==> exists m :: 0 <= m < |coords| && !InBounds(data, coords[m].0, coords[m].1)
    ensures r.Err? ==> exists m :: 0 <= m < |coords| && r.failure == CoordinateOutOfRange(coords[m].0, coords[m].1)
                        && !InBounds(data, coords[m].0, coords[m].1)
                        && forall n :: 0 <= n < m ==> InBounds(data, coords[n].0, coords[n].1)
    ensures r.Ok? ==> SameShape(r.value, data)
    ensures r.Ok? ==> forall i, j :: InBounds(data, i, j) ==>
                        r.value[i][j] == if (i, j) in coords then NoData else data[i][j]
  {
    var k := FirstOutside(data, coords);
    if k < |coords| then Err(CoordinateOutOfRange(coords[k].0, coords[k].1))
    else Ok(seq(|data|, i requires 0 <= i < |data| =>
                seq(|data[i]|, j requires 0 <= j < |data[i]| => if (i, j) in coords then NoData else data[i][j])))
  }

  /** Only the set of listed coordinates matters: repeating or reordering them
      gives the same band. */
  lemma RemovePixelsSetOnly(data: Grid, c1: seq<(nat, nat)>, c2: seq<(nat, nat)>)
    requires forall x :: x in c1 <==> x in c2
    ensures RemovePixels(data, c1).Ok? <==> RemovePixels(data, c2).Ok?
    ensures RemovePixels(data, c1).Ok? ==> RemovePixels(data, c1).value == RemovePixels(data, c2).value
  {
    var r1, r2 := RemovePixels(data, c1), RemovePixels(data, c2);
    forall m | 0 <= m < |c1|
      ensures exists n :: 0 <= n < |c2| && c2[n] == c1[m]
    {
      assert c1[m] in c2;
    }
    forall m | 0 <= m < |c2|
      ensures exists n :: 0 <= n < |c1| && c1[n] == c2[m]
    {
      assert c2[m] in c1;
    }
    if r1.Ok? && r2.Ok? {
      CellwiseExt(r1.value, r2.value);
    }
  }

  /** Removing the same pixels twice removes nothing more. */
  lemma RemovePixelsIdempotent(data: Grid, coords: seq<(nat, nat)>)
    requires RemovePixels(data, coords).Ok?
    ensures RemovePixels(RemovePixels(data, coords).value, coords) == RemovePixels(data, coords)
  {
    var once := RemovePixels(data, coords).value;
    var twice := RemovePixels(once, coords);
    forall m | 0 <= m < |coords|
      ensures InBounds(once, coords[m].0, coords[m].1)
    {
    }
    CellwiseExt(twice.value, once);
  }
}
