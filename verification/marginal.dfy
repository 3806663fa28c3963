/** Biomass potential of marginal land (`get_net_harvested_area`,
  `extract_pixel_area` and the final arithmetic of
  `get_biomass_potential_for_marginal`).

  The excluded pixels are selected on the coarsened and clipped zone, exclusion,
  tree-cover and pasture bands and removed from every crop raster.  The best
  crop's candidate at every pixel (`max_values`) is multiplied by the full area
  of the pixel and by 10^7, and the products are summed.  The harvested area is
  computed too, but only the unused `remaining_area` depends on it. */
module Marginal {
  import opened Grids
  import opened Outcomes
  import opened Georef
  import opened Residues
  import opened Exclusion
  import opened Allocator

  // ---------------------------------------------------------------------------
  // get_net_harvested_area

  /** The scale applied to the summed harvested area. */
  const HarvestedUnit: real := 1000.0

  /** All grids have the shape of the first. */
  predicate AllSameShape(layers: seq<Grid>) {
    forall k :: 0 <= k < |layers| ==> SameShape(layers[k], layers[0])
  }

  /** The running sum `net_harvested_area_obtained` after `layers`. */
  function HarvestedSum(layers: seq<Grid>): (s: Grid)
    requires |layers| > 0 && AllSameShape(layers)
    ensures SameShape(s, layers[0])
    decreases |layers|
  {
    if |layers| == 1 then layers[0]
    else AddGrid(HarvestedSum(layers[..|layers| - 1]), layers[|layers| - 1])
  }

  /** `get_net_harvested_area` on the masked harvested-area rasters. */
  function NetHarvestedArea(layers: seq<Grid>): (r: Result<Grid>)
    requires AllSameShape(layers)
    ensures r.Err? <==> |layers| == 0
    ensures r.Err? ==> r.failure == NoLayers
    ensures r.Ok? ==> SameShape(r.value, layers[0])
  {
    if |layers| == 0 then Err(NoLayers) else Ok(ScaleGrid(HarvestedSum(layers), HarvestedUnit))
  }

  /** Reference: the sum of the layers at one pixel, missing as soon as one
      layer is missing there. */
  function PixelTotal(layers: seq<Grid>, i: int, j: int): Cell
    requires forall k :: 0 <= k < |layers| ==> InBounds(layers[k], i, j)
  {
    if |layers| == 0 then Val(0.0)
    else
      assert InBounds(layers[|layers| - 1], i, j);
      AddCell(PixelTotal(layers[..|layers| - 1], i, j), layers[|layers| - 1][i][j])
  }

  lemma {:induction false} HarvestedSumAtPixel(layers: seq<Grid>, i: int, j: int)
    requires |layers| > 0 && AllSameShape(layers) && InBounds(layers[0], i, j)
    ensures forall k :: 0 <= k < |layers| ==> InBounds(layers[k], i, j)
    ensures HarvestedSum(layers)[i][j] == PixelTotal(layers, i, j)
    decreases |layers|
  {
    assert forall k :: 0 <= k < |layers| ==> InBounds(layers[k], i, j);
    if |layers| > 1 {
      var init := layers[..|layers| - 1];
      assert init[0] == layers[0];
      HarvestedSumAtPixel(init, i, j);
      assert InBounds(HarvestedSum(init), i, j);
    } else {
      assert layers[..0] == [];
    }
  }

  /** Each pixel of the harvested area is 1000 times the sum of the layers
      there, and missing where any layer is missing. */
  lemma NetHarvestedAreaAtPixel(layers: seq<Grid>, i: int, j: int)
    requires |layers| > 0 && AllSameShape(layers) && InBounds(layers[0], i, j)
    ensures forall k :: 0 <= k < |layers| ==> InBounds(layers[k], i, j)
    ensures NetHarvestedArea(layers).Ok?
    ensures NetHarvestedArea(layers).value[i][j] == ScaleCell(PixelTotal(layers, i, j), HarvestedUnit)
  {
    HarvestedSumAtPixel(layers, i, j);
    assert InBounds(HarvestedSum(layers), i, j);
  }

  /** A pixel is missing in the total exactly when it is missing in some layer. */
  lemma {:induction false} PixelTotalMissing(layers: seq<Grid>, i: int, j: int)
    requires forall k :: 0 <= k < |layers| ==> InBounds(layers[k], i, j)
    ensures PixelTotal(layers, i, j).NoData? <==> exists k :: 0 <= k < |layers| && Missing(layers[k], i, j)
    decreases |layers|
  {
    if |layers| > 0 {
      var init := layers[..|layers| - 1];
      PixelTotalMissing(init, i, j);
      assert forall k :: 0 <= k < |init| ==> init[k] == layers[k];
    }
  }

  /** The pixel (i, j) of `g` is missing. */
  predicate Missing(g: Grid, i: int, j: int)
    requires InBounds(g, i, j)
  {
    g[i][j].NoData?
  }

  // ---------------------------------------------------------------------------
  // extract_pixel_area

  /** Metres per degree of longitude at the equator. */
  const MetresPerDegree: real := 111319.9
  /** Square metres per hectare. */
  const SquareMetresPerHectare: real := 10000.0

  /** The reference raster's nodata setting, which each pixel is compared against with `!=`: unset
      (`None`) and NaN make the comparison true for every pixel. */
  datatype NodataSetting = Unset | NaNSentinel | Sentinel(value: real)

  /** `clipped_data[band, row, col] != src.nodata`. */
  predicate HasArea(c: Cell, nodata: NodataSetting) {
    match nodata
    case Unset => true
    case NaNSentinel => true
    case Sentinel(value) => c != Val(value)
  }

  function Abs(x: real): real {
    if x < 0.0 then -x else x
  }

  /** The latitude of the centre of pixel (row, col). */
  function CentreLatitude(t: Affine, row: int, col: int): real {
    Apply(t, col as real + 0.5, row as real + 0.5).1
  }

  /** The area in hectares of a pixel whose centre lies at latitude `lat`;
      `cosDeg` is the cosine of an angle given in degrees. */
  function CellArea(t: Affine, lat: real, cosDeg: real -> real): real {
    Abs(t.a * t.e * (MetresPerDegree * MetresPerDegree)) * cosDeg(lat) / SquareMetresPerHectare
  }

  /** `extract_pixel_area` on the reference raster clipped to the region. */
  function PixelArea(clipped: Grid, t: Affine, nodata: NodataSetting, cosDeg: real -> real): (area: Field)
    ensures SameShape(area, clipped)
    ensures forall i, j :: InBounds(clipped, i, j) && !HasArea(clipped[i][j], nodata) ==> area[i][j] == 0.0
  {
    seq(|clipped|, i requires 0 <= i < |clipped| => seq(|clipped[i]|, j requires 0 <= j < |clipped[i]| =>
      if HasArea(clipped[i][j], nodata) then CellArea(t, CentreLatitude(t, i, j), cosDeg) else 0.0))
  }

  /** With a north-up transform (no rotation), two pixels of one row that both
      have data have the same area. */
  lemma AreaDependsOnRow(clipped: Grid, t: Affine, nodata: NodataSetting, cosDeg: real -> real, i: int, j1: int, j2: int)
    requires t.d == 0.0
    requires InBounds(clipped, i, j1) && InBounds(clipped, i, j2)
    requires HasArea(clipped[i][j1], nodata) && HasArea(clipped[i][j2], nodata)
    ensures PixelArea(clipped, t, nodata, cosDeg)[i][j1] == PixelArea(clipped, t, nodata, cosDeg)[i][j2]
  {
    assert CentreLatitude(t, i, j1) == CentreLatitude(t, i, j2);
  }

  /** Where the cosine is not negative, no pixel has a negative area. */
  lemma AreaNonNegative(clipped: Grid, t: Affine, nodata: NodataSetting, cosDeg: real -> real, i: int, j: int)
    requires InBounds(clipped, i, j)
    requires cosDeg(CentreLatitude(t, i, j)) >= 0.0
    ensures PixelArea(clipped, t, nodata, cosDeg)[i][j] >= 0.0
  {
    var k := Abs(t.a * t.e * (MetresPerDegree * MetresPerDegree));
    var c := cosDeg(CentreLatitude(t, i, j));
    assert k >= 0.0;
    assert k * c >= 0.0;
  }

  // ---------------------------------------------------------------------------
  // The final product

  /** `10**7`: MJ to J and 10 kg to kg. */
  const MarginalUnit: real := 10000000.0

  /** `np.multiply(max_values, net_area) * 10**7`. */
  function FinalPotential(values: Field, area: Field): (f: Field)
    requires SameShape(values, area)
    ensures SameShape(f, values)
  {
    ScaleField(MulField(values, area), MarginalUnit)
  }

  /** Each pixel's potential is its best candidate times its full area times
      10^7, and the total is 10^7 times the area-weighted sum of the best
      candidates. */
  lemma FinalPotentialSpec(values: Field, area: Field)
    requires SameShape(values, area)
    ensures forall i, j :: InBounds(values, i, j) ==>
              FinalPotential(values, area)[i][j] == values[i][j] * area[i][j] * MarginalUnit
    ensures FieldSum(FinalPotential(values, area)) == FieldSum(MulField(values, area)) * MarginalUnit
  {
    var prod := MulField(values, area);
    forall i, j | InBounds(values, i, j)
      ensures FinalPotential(values, area)[i][j] == values[i][j] * area[i][j] * MarginalUnit
    {
      FinalPixel(values, area, i, j);
    }
    FieldSumScale(prod, MarginalUnit);
  }

  lemma FinalPixel(values: Field, area: Field, i: int, j: int)
    requires SameShape(values, area) && InBounds(values, i, j)
    ensures FinalPotential(values, area)[i][j] == values[i][j] * area[i][j] * MarginalUnit
  {
    var prod := MulField(values, area);
    assert InBounds(prod, i, j);
    var p := prod[i][j];
    assert p == values[i][j] * area[i][j];
    assert ScaleField(prod, MarginalUnit)[i][j] == p * MarginalUnit;
  }

  // ---------------------------------------------------------------------------
  // get_biomass_potential_for_marginal

  /** Raster k is the first of `grids` that `remove_pixels` rejects, with
      failure `f`. */
  predicate FirstFailureAt(grids: seq<Grid>, coords: seq<(nat, nat)>, k: int, f: Failure) {
    && 0 <= k < |grids|
    && RemovePixels(grids[k], coords) == Err(f)
    && forall n :: 0 <= n < k ==> RemovePixels(grids[n], coords).Ok?
  }

  lemma FirstFailureExtends(init: seq<Grid>, grids: seq<Grid>, coords: seq<(nat, nat)>, k: int, f: Failure)
    requires init <= grids && FirstFailureAt(init, coords, k, f)
    ensures FirstFailureAt(grids, coords, k, f)
  {
    assert forall n :: 0 <= n <= k ==> init[n] == grids[n];
  }

  /** `remove_pixels` on every harvested-area raster, in order; the first
      failure stops the loop. */
  function MaskGrids(layers: seq<Grid>, coords: seq<(nat, nat)>): (r: Result<seq<Grid>>)
    ensures r.Ok? ==> |r.value| == |layers|
    ensures r.Ok? ==> forall k :: 0 <= k < |layers| ==>
              RemovePixels(layers[k], coords).Ok? && r.value[k] == RemovePixels(layers[k], coords).value
    ensures r.Err? ==> exists k :: FirstFailureAt(layers, coords, k, r.failure)
    decreases |layers|
  {
    if |layers| == 0 then Ok([])
    else
      var init := layers[..|layers| - 1];
      var prev := MaskGrids(init, coords);
      if prev.Err? then
        var k :| FirstFailureAt(init, coords, k, prev.failure);
        FirstFailureExtends(init, layers, coords, k, prev.failure);
        Err(prev.failure)
      else
        var last := RemovePixels(layers[|layers| - 1], coords);
        if last.Err? then
          LastFailure(init, layers, coords, last.failure);
          Err(last.failure)
        else
          MaskedAppend(init, layers, coords, prev.value, last.value);
          Ok(prev.value + [last.value])
  }

  lemma LastFailure(init: seq<Grid>, grids: seq<Grid>, coords: seq<(nat, nat)>, f: Failure)
    requires |grids| > 0 && init == grids[..|grids| - 1]
    requires forall n :: 0 <= n < |init| ==> RemovePixels(init[n], coords).Ok?
    requires RemovePixels(grids[|grids| - 1], coords) == Err(f)
    ensures FirstFailureAt(grids, coords, |grids| - 1, f)
  {
    assert forall n :: 0 <= n < |init| ==> grids[n] == init[n];
  }

  lemma MaskedAppend(init: seq<Grid>, grids: seq<Grid>, coords: seq<(nat, nat)>, masked: seq<Grid>, last: Grid)
    requires |grids| > 0 && init == grids[..|grids| - 1] && |masked| == |init|
    requires forall n :: 0 <= n < |init| ==> RemovePixels(init[n], coords).Ok? && masked[n] == RemovePixels(init[n], coords).value
    requires RemovePixels(grids[|grids| - 1], coords) == Ok(last)
    ensures forall n :: 0 <= n < |grids| ==>
              RemovePixels(grids[n], coords).Ok? && (masked + [last])[n] == RemovePixels(grids[n], coords).value
  {
    assert forall n :: 0 <= n < |init| ==> grids[n] == init[n];
  }

  /** The bands of the crop rasters, in order. */
  function Bands(layers: seq<CropRaster>): (g: seq<Grid>)
    ensures |g| == |layers| && forall k :: 0 <= k < |layers| ==> g[k] == layers[k].data
  {
    seq(|layers|, k requires 0 <= k < |layers| => layers[k].data)
  }

  /** `remove_pixels` on every crop raster, in order; the first failure stops
      the loop. */
  function MaskCrops(layers: seq<CropRaster>, coords: seq<(nat, nat)>): (r: Result<seq<CropRaster>>)
    ensures r.Ok? ==> |r.value| == |layers|
    ensures r.Ok? ==> forall k :: 0 <= k < |layers| ==>
              RemovePixels(layers[k].data, coords).Ok?
              && r.value[k] == CropRaster(layers[k].crop, RemovePixels(layers[k].data, coords).value)
    ensures r.Err? ==> exists k :: FirstFailureAt(Bands(layers), coords, k, r.failure)
  {
    var masked := MaskGrids(Bands(layers), coords);
    if masked.Err? then Err(masked.failure)
    else Ok(seq(|layers|, k requires 0 <= k < |layers| => CropRaster(layers[k].crop, masked.value[k])))
  }

  /** The clipped inputs of the calculation. */
  datatype MarginalInputs = MarginalInputs(
    aez: Band, exclusion: Band, tree: Band, pasture: Band,
    crops: seq<CropRaster>, harvested: seq<Grid>,
    reference: Grid, referenceTransform: Affine, referenceNodata: NodataSetting)

  /** The returned triple: the total, the per-pixel potential and the best-crop
      allocation. */
  datatype MarginalResult = MarginalResult(total: real, finalPotential: Field, allocation: Allocation)

  /** Every crop raster, every harvested-area raster and the reference raster
      share one shape, so the element-wise operations line up. */
  predicate InputsAligned(m: MarginalInputs) {
    && Aligned(m.crops)
    && AllSameShape(m.harvested)
    && (|m.crops| > 0 ==> SameShape(m.reference, m.crops[0].data))
    && (|m.harvested| > 0 ==> SameShape(m.reference, m.harvested[0]))
  }

  /** The removal list the four selections produce. */
  function ExcludedCoordinates(m: MarginalInputs): seq<(nat, nat)> {
    RowCols(ExcludedPixels(m.aez, m.exclusion, m.tree, m.pasture))
  }

  lemma MaskedAligned(layers: seq<CropRaster>, coords: seq<(nat, nat)>)
    requires Aligned(layers)
    requires MaskCrops(layers, coords).Ok?
    ensures Aligned(MaskCrops(layers, coords).value)
  {
  }

  lemma MaskedGridsAligned(layers: seq<Grid>, coords: seq<(nat, nat)>)
    requires AllSameShape(layers)
    requires MaskGrids(layers, coords).Ok?
    ensures AllSameShape(MaskGrids(layers, coords).value)
  {
  }

  /** `get_biomass_potential_for_marginal` from the clipped bands onward. */
  function BiomassPotentialForMarginal(m: MarginalInputs, table: seq<ResidueRow>, cosDeg: real -> real): (r: Result<MarginalResult>)
    requires InputsAligned(m)
    ensures r.Ok? ==> r.value.total == FieldSum(r.value.finalPotential)
    ensures r.Ok? ==> SameShape(r.value.finalPotential, m.reference)
  {
    var coords := ExcludedCoordinates(m);
    var masked := MaskCrops(m.crops, coords);
    if masked.Err? then Err(masked.failure)
    else
      MaskedAligned(m.crops, coords);
      var best := FindMax(masked.value, table);
      if best.Err? then Err(best.failure)
      else
        var harvested := MaskGrids(m.harvested, coords);
        if harvested.Err? then Err(harvested.failure)
        else
          MaskedGridsAligned(m.harvested, coords);
          var net := NetHarvestedArea(harvested.value);
          if net.Err? then Err(net.failure)
          else
            var area := PixelArea(m.reference, m.referenceTransform, m.referenceNodata, cosDeg);
            var final := FinalPotential(best.value.values, area);
            Ok(MarginalResult(FieldSum(final), final, best.value))
  }

  /** The harvested area does not enter the result: two runs that differ only
      in their harvested-area rasters and both succeed agree. */
  lemma HarvestedAreaUnused(m: MarginalInputs, other: seq<Grid>, table: seq<ResidueRow>, cosDeg: real -> real)
    requires InputsAligned(m) && InputsAligned(m.(harvested := other))
    requires BiomassPotentialForMarginal(m, table, cosDeg).Ok?
    requires BiomassPotentialForMarginal(m.(harvested := other), table, cosDeg).Ok?
    ensures BiomassPotentialForMarginal(m, table, cosDeg) == BiomassPotentialForMarginal(m.(harvested := other), table, cosDeg)
  {
  }

  /** The calculation fails exactly when a removal coordinate lies outside a
      crop or harvested-area raster, or one of the two lists is empty. */
  lemma MarginalFailure(m: MarginalInputs, table: seq<ResidueRow>, cosDeg: real -> real)
    requires InputsAligned(m)
    ensures BiomassPotentialForMarginal(m, table, cosDeg).Err? <==>
              || MaskCrops(m.crops, ExcludedCoordinates(m)).Err?
              || |m.crops| == 0
              || MaskGrids(m.harvested, ExcludedCoordinates(m)).Err?
              || |m.harvested| == 0
  {
    var coords := ExcludedCoordinates(m);
    var masked := MaskCrops(m.crops, coords);
    if masked.Ok? {
      MaskedAligned(m.crops, coords);
      var harvested := MaskGrids(m.harvested, coords);
      if harvested.Ok? {
        MaskedGridsAligned(m.harvested, coords);
      }
    }
  }

  /** The best-crop allocation of a successful run. */
  function BestOf(m: MarginalInputs, table: seq<ResidueRow>): (a: Allocation)
    requires InputsAligned(m)
    requires MaskCrops(m.crops, ExcludedCoordinates(m)).Ok? && |m.crops| > 0
  {
    MaskedAligned(m.crops, ExcludedCoordinates(m));
    FindMax(MaskCrops(m.crops, ExcludedCoordinates(m)).value, table).value
  }

  /** A successful run returns the best-crop allocation, its values times the
      full pixel area times 10^7, and their total. */
  lemma MarginalOk(m: MarginalInputs, table: seq<ResidueRow>, cosDeg: real -> real)
    requires InputsAligned(m)
    requires BiomassPotentialForMarginal(m, table, cosDeg).Ok?
    ensures MaskCrops(m.crops, ExcludedCoordinates(m)).Ok? && |m.crops| > 0
    ensures SameShape(BestOf(m, table).values, m.reference)
    ensures var r := BiomassPotentialForMarginal(m, table, cosDeg).value;
      && r.allocation == BestOf(m, table)
      && r.finalPotential == FinalPotential(BestOf(m, table).values,
                                            PixelArea(m.reference, m.referenceTransform, m.referenceNodata, cosDeg))
  {
    MaskedAligned(m.crops, ExcludedCoordinates(m));
  }

  /** The potential of one pixel: its best candidate times its area times 10^7. */
  function PixelPotential(value: real, area: real): real {
    value * area * MarginalUnit
  }

  /** One pixel of a successful run, end to end: its potential is its best
      value times its area times 10^7. */
  lemma MarginalPixelPotential(m: MarginalInputs, table: seq<ResidueRow>, cosDeg: real -> real, i: int, j: int)
    requires InputsAligned(m)
    ensures var r := BiomassPotentialForMarginal(m, table, cosDeg);
      r.Ok? && InBounds(m.reference, i, j) ==>
        var area := PixelArea(m.reference, m.referenceTransform, m.referenceNodata, cosDeg);
        && InBounds(area, i, j)
        && InBounds(r.value.allocation.values, i, j)
        && InBounds(r.value.finalPotential, i, j)
        && r.value.finalPotential[i][j] == PixelPotential(r.value.allocation.values[i][j], area[i][j])
  {
    var r := BiomassPotentialForMarginal(m, table, cosDeg);
    if r.Ok? && InBounds(m.reference, i, j) {
      MarginalOk(m, table, cosDeg);
      var area := PixelArea(m.reference, m.referenceTransform, m.referenceNodata, cosDeg);
      var res, a := r.value, BestOf(m, table);
      assert res.allocation == a;
      assert res.finalPotential == FinalPotential(a.values, area);
      ResultPixel(res, a, area, i, j);
    }
  }

  /** One pixel of a successful run, end to end: the best value there is the
      largest candidate of the masked crop rasters, labelled with the first crop
      in catalog order that reaches it ("None" for Alfalfa). */
  lemma MarginalPixelBest(m: MarginalInputs, table: seq<ResidueRow>, cosDeg: real -> real, i: int, j: int)
    requires InputsAligned(m)
    ensures var r := BiomassPotentialForMarginal(m, table, cosDeg);
      r.Ok? && InBounds(m.reference, i, j) ==>
        && MaskCrops(m.crops, ExcludedCoordinates(m)).Ok?
        && (var layers := MaskCrops(m.crops, ExcludedCoordinates(m)).value;
            && InBounds(r.value.allocation.values, i, j)
            && InBounds(r.value.allocation.labels, i, j)
            && (forall k :: 0 <= k < |layers| ==> InBounds(layers[k].data, i, j))
            && exists w :: IsFirstMax(PixelValues(layers, table, i, j), w, r.value.allocation.values[i][j])
                           && r.value.allocation.labels[i][j] == if layers[w].crop == Alfalfa then NoneLabel else layers[w].crop)
  {
    var r := BiomassPotentialForMarginal(m, table, cosDeg);
    if r.Ok? && InBounds(m.reference, i, j) {
      MarginalOk(m, table, cosDeg);
      BestPixel(m, table, i, j);
      assert r.value.allocation == BestOf(m, table);
    }
  }

  /** A result built from the allocation `a` and the area `area` carries, at a
      pixel, the allocation's value times the area times 10^7. */
  lemma ResultPixel(res: MarginalResult, a: Allocation, area: Field, i: int, j: int)
    requires SameShape(a.values, area) && InBounds(a.values, i, j)
    requires res.allocation == a && res.finalPotential == FinalPotential(a.values, area)
    ensures InBounds(res.finalPotential, i, j)
    ensures res.finalPotential[i][j] == PixelPotential(res.allocation.values[i][j], area[i][j])
  {
    FinalPixel(a.values, area, i, j);
  }

  /** The allocation of a successful masking, at one pixel of the reference raster. */
  lemma BestPixel(m: MarginalInputs, table: seq<ResidueRow>, i: int, j: int)
    requires InputsAligned(m)
    requires MaskCrops(m.crops, ExcludedCoordinates(m)).Ok? && |m.crops| > 0
    requires InBounds(m.reference, i, j)
    ensures var layers := MaskCrops(m.crops, ExcludedCoordinates(m)).value;
      var a := BestOf(m, table);
      && InBounds(a.values, i, j)
      && InBounds(a.labels, i, j)
      && (forall k :: 0 <= k < |layers| ==> InBounds(layers[k].data, i, j))
      && exists w :: IsFirstMax(PixelValues(layers, table, i, j), w, a.values[i][j])
                     && a.labels[i][j] == if layers[w].crop == Alfalfa then NoneLabel else layers[w].crop
  {
    var coords := ExcludedCoordinates(m);
    MaskedAligned(m.crops, coords);
    var layers := MaskCrops(m.crops, coords).value;
    assert InBounds(m.crops[0].data, i, j);
    assert InBounds(layers[0].data, i, j);
    FindMaxIsFirstMax(layers, table, i, j);
  }

  /** Every masked crop raster is missing at a listed pixel. */
  lemma MaskedPixelMissing(layers: seq<CropRaster>, coords: seq<(nat, nat)>, row: nat, col: nat)
    requires Aligned(layers) && |layers| > 0 && InBounds(layers[0].data, row, col)
    requires MaskCrops(layers, coords).Ok? && (row, col) in coords
    ensures forall k :: 0 <= k < |layers| ==>
              InBounds(MaskCrops(layers, coords).value[k].data, row, col)
              && MaskCrops(layers, coords).value[k].data[row][col] == NoData
  {
    var masked := MaskCrops(layers, coords).value;
    forall k | 0 <= k < |layers|
      ensures InBounds(masked[k].data, row, col) && masked[k].data[row][col] == NoData
    {
      assert InBounds(layers[k].data, row, col);
    }
  }

  /** Where every crop is missing, every candidate is 0 and so is the best value. */
  lemma AllMissingBestIsZero(layers: seq<CropRaster>, table: seq<ResidueRow>, row: nat, col: nat)
    requires Aligned(layers) && |layers| > 0 && InBounds(layers[0].data, row, col)
    requires forall k :: 0 <= k < |layers| ==> InBounds(layers[k].data, row, col) && layers[k].data[row][col] == NoData
    ensures FindMax(layers, table).Ok?
    ensures InBounds(FindMax(layers, table).value.values, row, col)
    ensures FindMax(layers, table).value.values[row][col] == 0.0
  {
    FindMaxIsFirstMax(layers, table, row, col);
    ZeroCandidates(layers, table, row, col);
    var vals := PixelValues(layers, table, row, col);
    var a := FindMax(layers, table).value;
    var w :| IsFirstMax(vals, w, a.values[row][col]);
    assert vals[w] == 0.0;
  }

  lemma ZeroCandidates(layers: seq<CropRaster>, table: seq<ResidueRow>, row: nat, col: nat)
    requires forall k :: 0 <= k < |layers| ==> InBounds(layers[k].data, row, col) && layers[k].data[row][col] == NoData
    ensures forall k :: 0 <= k < |layers| ==> PixelValues(layers, table, row, col)[k] == 0.0
  {
    PixelValuesAreScaled(layers, table, row, col);
  }

  /** A pixel on the removal list yields nothing: every crop's candidate there
      is 0, so the best value is 0. */
  lemma ExcludedPixelYieldsNothing(m: MarginalInputs, table: seq<ResidueRow>, cosDeg: real -> real, row: nat, col: nat)
    requires InputsAligned(m)
    ensures var r := BiomassPotentialForMarginal(m, table, cosDeg);
      r.Ok? && (row, col) in ExcludedCoordinates(m) && InBounds(m.reference, row, col) ==>
        && InBounds(r.value.allocation.values, row, col) && r.value.allocation.values[row][col] == 0.0
        && InBounds(r.value.finalPotential, row, col) && r.value.finalPotential[row][col] == 0.0
  {
    var r := BiomassPotentialForMarginal(m, table, cosDeg);
    var coords := ExcludedCoordinates(m);
    if r.Ok? && (row, col) in coords && InBounds(m.reference, row, col) {
      MarginalOk(m, table, cosDeg);
      MaskedAligned(m.crops, coords);
      var layers := MaskCrops(m.crops, coords).value;
      assert InBounds(m.crops[0].data, row, col);
      MaskedPixelMissing(m.crops, coords, row, col);
      AllMissingBestIsZero(layers, table, row, col);
      var a := BestOf(m, table);
      var area := PixelArea(m.reference, m.referenceTransform, m.referenceNodata, cosDeg);
      FinalPotentialSpec(a.values, area);
    }
  }

  /** A pixel of the reference raster holding its nodata value yields nothing. */
  lemma NoAreaYieldsNothing(m: MarginalInputs, table: seq<ResidueRow>, cosDeg: real -> real, row: nat, col: nat)
    requires InputsAligned(m)
    ensures var r := BiomassPotentialForMarginal(m, table, cosDeg);
      r.Ok? && InBounds(m.reference, row, col) && !HasArea(m.reference[row][col], m.referenceNodata) ==>
        InBounds(r.value.finalPotential, row, col) && r.value.finalPotential[row][col] == 0.0
  {
    var r := BiomassPotentialForMarginal(m, table, cosDeg);
    if r.Ok? && InBounds(m.reference, row, col) && !HasArea(m.reference[row][col], m.referenceNodata) {
      MarginalPixelPotential(m, table, cosDeg, row, col);
      var area := PixelArea(m.reference, m.referenceTransform, m.referenceNodata, cosDeg);
      assert area[row][col] == 0.0;
    }
  }
}
