/** Residue energy of a future period on today's cropland
  (`future_residues_all_final`).

  For every crop found in both the harvested-area and the potential-yield
  catalogs, the 2010 harvested area and the future potential yield are read with
  missing pixels turned into 0 (`np.nan_to_num`), multiplied pixel by pixel and
  summed into `sum_product`.  The crop's `temp_sum` accumulates
  `sum_product * RPR * SAF * LHV * 10^9` over its residue rows.  The crop's field
  is `area * yield * temp_sum`: each pixel is scaled by the crop's regional total,
  not by its conversion factor, so a field does not sum to its own
  `sum_production`.  The fields are added into the `combined` field, which starts
  as zeros of the reference raster's shape. */
module Future {
  import opened Grids
  import opened Residues

  /** 10^9, the unit conversion applied to area * yield * factor. */
  const FutureUnit: real := 1000000000.0

  /** One crop's two clipped inputs: harvested area and potential yield. */
  datatype YieldLayer = YieldLayer(crop: string, area: Grid, potentialYield: Grid)

  /** One data variable of the result with its `sum_production` attribute. */
  datatype FuturePotential = FuturePotential(crop: string, field: Field, sumProduction: real)

  /** The returned dataset: the crop entries, the `net_sum` attribute and `combined`. */
  datatype FutureDataset = FutureDataset(crops: seq<FuturePotential>, netSum: real, combined: Field)

  /** Both rasters of every layer have the reference raster's shape. */
  predicate Fits(template: Grid, layers: seq<YieldLayer>) {
    forall k :: 0 <= k < |layers| ==>
      SameShape(layers[k].area, template) && SameShape(layers[k].potentialYield, template)
  }

  /** `np.multiply(nan_to_num(area), nan_to_num(yield))`. */
  function AreaTimesYield(layer: YieldLayer): (p: Field)
    requires SameShape(layer.area, layer.potentialYield)
    ensures SameShape(p, layer.area)
    ensures forall i, j :: InBounds(p, i, j) ==>
              p[i][j] == ValueOr0(layer.area[i][j]) * ValueOr0(layer.potentialYield[i][j])
  {
    MulField(ZeroFill(layer.area), ZeroFill(layer.potentialYield))
  }

  /** `sum_product`: the total of area * yield over the region. */
  function ProductSum(layer: YieldLayer): real
    requires SameShape(layer.area, layer.potentialYield)
  {
    FieldSum(AreaTimesYield(layer))
  }

  /** One crop's entry: `temp_sum` and the field `area * yield * temp_sum`. */
  function FutureCrop(layer: YieldLayer, table: seq<ResidueRow>): (p: FuturePotential)
    requires SameShape(layer.area, layer.potentialYield)
    ensures p.crop == layer.crop && SameShape(p.field, layer.area)
  {
    var tempSum := ResidueSumFrom(0.0, ProductSum(layer), RowsFor(table, layer.crop), FutureUnit);
    FuturePotential(layer.crop, ScaleField(AreaTimesYield(layer), tempSum), tempSum)
  }

  /** The entries of the crops `layers`, in catalog order. */
  function FutureCrops(layers: seq<YieldLayer>, table: seq<ResidueRow>): (cs: seq<FuturePotential>)
    requires forall k :: 0 <= k < |layers| ==> SameShape(layers[k].area, layers[k].potentialYield)
    ensures |cs| == |layers|
  {
    seq(|layers|, k requires 0 <= k < |layers| => FutureCrop(layers[k], table))
  }

  /** Every crop entry has the shape of the reference raster. */
  predicate FutureFits(template: Grid, crops: seq<FuturePotential>) {
    forall k :: 0 <= k < |crops| ==> SameShape(crops[k].field, template)
  }

  /** The dataset after adding the entries `crops`: each iteration appends the
      crop's entry, adds its `sum_production` to `net_sum` and its field to
      `combined`. */
  function FutureLoop(template: Grid, crops: seq<FuturePotential>): (d: FutureDataset)
    requires FutureFits(template, crops)
    ensures SameShape(d.combined, template)
    decreases |crops|
  {
    if |crops| == 0 then FutureDataset([], 0.0, ZeroField(template))
    else
      var prev := FutureLoop(template, crops[..|crops| - 1]);
      var p := crops[|crops| - 1];
      assert SameShape(p.field, template);
      FutureDataset(prev.crops + [p], prev.netSum + p.sumProduction, AddField(prev.combined, p.field))
  }

  lemma CropsFit(template: Grid, layers: seq<YieldLayer>, table: seq<ResidueRow>)
    requires Fits(template, layers)
    ensures FutureFits(template, FutureCrops(layers, table))
  {
    forall k | 0 <= k < |layers|
      ensures SameShape(FutureCrops(layers, table)[k].field, template)
    {
      assert FutureCrops(layers, table)[k] == FutureCrop(layers[k], table);
    }
  }

  /** `future_residues_all_final`: `template` is the reference raster clipped to
      the region, which fixes the shape of `combined`. */
  function FutureResiduesAllFinal(template: Grid, layers: seq<YieldLayer>, table: seq<ResidueRow>): (d: FutureDataset)
    requires Fits(template, layers)
    ensures SameShape(d.combined, template)
  {
    CropsFit(template, layers, table);
    FutureLoop(template, FutureCrops(layers, table))
  }

  // ---------------------------------------------------------------------------
  // Reference definitions

  /** The crop's energy by the closed formula sum(area * yield) * factor * 10^9. */
  function FutureEnergy(layer: YieldLayer, table: seq<ResidueRow>): real
    requires SameShape(layer.area, layer.potentialYield)
  {
    ProductSum(layer) * ConversionFactor(table, layer.crop) * FutureUnit
  }

  /** The sum of the crop energies, crop after crop. */
  function TotalFutureEnergy(layers: seq<YieldLayer>, table: seq<ResidueRow>): real
    requires forall k :: 0 <= k < |layers| ==> SameShape(layers[k].area, layers[k].potentialYield)
  {
    if |layers| == 0 then 0.0
    else TotalFutureEnergy(layers[..|layers| - 1], table) + FutureEnergy(layers[|layers| - 1], table)
  }

  /** The pixel-wise sum of the crop fields at one pixel. */
  function StackValue(crops: seq<FuturePotential>, i: int, j: int): real
    requires forall k :: 0 <= k < |crops| ==> InBounds(crops[k].field, i, j)
  {
    if |crops| == 0 then 0.0
    else
      assert InBounds(crops[|crops| - 1].field, i, j);
      StackValue(crops[..|crops| - 1], i, j) + crops[|crops| - 1].field[i][j]
  }

  // ---------------------------------------------------------------------------
  // Properties

  /** `temp_sum` is sum(area * yield) * factor * 10^9, with missing pixels of
      either raster read as 0. */
  lemma FutureCropSum(layer: YieldLayer, table: seq<ResidueRow>)
    requires SameShape(layer.area, layer.potentialYield)
    ensures FutureCrop(layer, table).sumProduction == FutureEnergy(layer, table)
  {
    ResidueSumIsFactor(0.0, ProductSum(layer), RowsFor(table, layer.crop), FutureUnit);
    ScaleAssoc(ProductSum(layer), ConversionFactor(table, layer.crop), FutureUnit);
  }

  /** Each pixel of a crop's field is area * yield at that pixel, missing values
      read as 0, times the crop's `temp_sum`. */
  lemma FutureCropField(layer: YieldLayer, table: seq<ResidueRow>)
    requires SameShape(layer.area, layer.potentialYield)
    ensures var p := FutureCrop(layer, table);
      && SameShape(p.field, layer.area)
      && forall i, j :: InBounds(layer.area, i, j) ==>
           p.field[i][j] == ValueOr0(layer.area[i][j]) * ValueOr0(layer.potentialYield[i][j]) * p.sumProduction
  {
    var p := FutureCrop(layer, table);
    forall i, j | InBounds(layer.area, i, j)
      ensures p.field[i][j] == ValueOr0(layer.area[i][j]) * ValueOr0(layer.potentialYield[i][j]) * p.sumProduction
    {
      FutureCropPixel(layer, table, i, j);
    }
  }

  lemma FutureCropPixel(layer: YieldLayer, table: seq<ResidueRow>, i: int, j: int)
    requires SameShape(layer.area, layer.potentialYield) && InBounds(layer.area, i, j)
    ensures InBounds(FutureCrop(layer, table).field, i, j)
    ensures FutureCrop(layer, table).field[i][j]
            == ValueOr0(layer.area[i][j]) * ValueOr0(layer.potentialYield[i][j]) * FutureCrop(layer, table).sumProduction
  {
    var prod := AreaTimesYield(layer);
    var t := FutureCrop(layer, table).sumProduction;
    assert FutureCrop(layer, table).field == ScaleField(prod, t);
    assert InBounds(prod, i, j);
    assert prod[i][j] == ValueOr0(layer.area[i][j]) * ValueOr0(layer.potentialYield[i][j]);
    assert ScaleField(prod, t)[i][j] == prod[i][j] * t;
  }

  /** A pixel missing in either input contributes nothing to the crop's field. */
  lemma MissingPixelIsZero(layer: YieldLayer, table: seq<ResidueRow>, i: int, j: int)
    requires SameShape(layer.area, layer.potentialYield)
    requires InBounds(layer.area, i, j)
    requires layer.area[i][j].NoData? || layer.potentialYield[i][j].NoData?
    ensures FutureCrop(layer, table).field[i][j] == 0.0
  {
    FutureCropField(layer, table);
  }

  /** The field totals `sum_product * temp_sum`, not `temp_sum`: the pixels are
      scaled by the regional total. */
  lemma FieldTotalIsSquared(layer: YieldLayer, table: seq<ResidueRow>)
    requires SameShape(layer.area, layer.potentialYield)
    ensures FieldSum(FutureCrop(layer, table).field) == ProductSum(layer) * FutureCrop(layer, table).sumProduction
  {
    var p := FutureCrop(layer, table);
    var prod := AreaTimesYield(layer);
    var k := p.sumProduction;
    assert p.field == ScaleField(prod, k);
    FieldSumScale(prod, k);
    assert FieldSum(ScaleField(prod, k)) == FieldSum(prod) * k;
    assert FieldSum(prod) == ProductSum(layer);
    MulCongruence(FieldSum(prod), ProductSum(layer), k);
    assert FieldSum(prod) * k == ProductSum(layer) * k;
  }

  lemma MulCongruence(a: real, b: real, k: real)
    requires a == b
    ensures a * k == b * k
  {
  }

  /** Unless the regional area * yield is exactly 0 or 1, or the crop has a zero
      factor, a crop's field does not sum to its own `sum_production`. */
  lemma FieldTotalDiffers(layer: YieldLayer, table: seq<ResidueRow>)
    requires SameShape(layer.area, layer.potentialYield)
    requires ProductSum(layer) != 0.0 && ProductSum(layer) != 1.0
    requires ConversionFactor(table, layer.crop) != 0.0
    ensures FieldSum(FutureCrop(layer, table).field) != FutureCrop(layer, table).sumProduction
  {
    var p := FutureCrop(layer, table);
    var t, s, c := p.sumProduction, ProductSum(layer), ConversionFactor(table, layer.crop);
    var total := FieldSum(p.field);
    assert total == s * t by { FieldTotalIsSquared(layer, table); }
    assert t == s * c * FutureUnit by { FutureCropSum(layer, table); }
    SquareNotEnergy(total, s, c, FutureUnit, t);
  }

  /** `s * t` with `t = s * c * unit` differs from `t` unless a factor is 0 or `s` is 1. */
  lemma SquareNotEnergy(total: real, s: real, c: real, unit: real, t: real)
    requires total == s * t && t == s * c * unit
    requires s != 0.0 && s != 1.0 && c != 0.0 && unit != 0.0
    ensures total != t
  {
    NonZeroProduct(s, c, unit);
    ScaleNotIdentity(s, t);
  }

  lemma NonZeroProduct(a: real, b: real, c: real)
    requires a != 0.0 && b != 0.0 && c != 0.0
    ensures a * b * c != 0.0
  {
  }

  lemma ScaleNotIdentity(s: real, t: real)
    requires s != 1.0 && t != 0.0
    ensures s * t != t
  {
    assert s * t - t == (s - 1.0) * t;
  }

  /** The loop keeps the entries it is given, in order. */
  lemma {:induction false} LoopKeepsCrops(template: Grid, crops: seq<FuturePotential>)
    requires FutureFits(template, crops)
    decreases |crops|
    ensures FutureLoop(template, crops).crops == crops
  {
    if |crops| > 0 {
      var init := crops[..|crops| - 1];
      LoopKeepsCrops(template, init);
      assert FutureLoop(template, crops).crops == FutureLoop(template, init).crops + [crops[|crops| - 1]];
      assert init + [crops[|crops| - 1]] == crops;
    }
  }

  /** The dataset holds one entry per crop, in catalog order. */
  lemma FutureEntries(template: Grid, layers: seq<YieldLayer>, table: seq<ResidueRow>)
    requires Fits(template, layers)
    ensures |FutureResiduesAllFinal(template, layers, table).crops| == |layers|
    ensures forall k :: 0 <= k < |layers| ==>
              FutureResiduesAllFinal(template, layers, table).crops[k] == FutureCrop(layers[k], table)
  {
    CropsFit(template, layers, table);
    LoopKeepsCrops(template, FutureCrops(layers, table));
  }

  lemma FutureCropsPrefix(layers: seq<YieldLayer>, table: seq<ResidueRow>)
    requires |layers| > 0
    requires forall k :: 0 <= k < |layers| ==> SameShape(layers[k].area, layers[k].potentialYield)
    ensures FutureCrops(layers, table)[..|layers| - 1] == FutureCrops(layers[..|layers| - 1], table)
    ensures FutureCrops(layers, table)[|layers| - 1] == FutureCrop(layers[|layers| - 1], table)
  {
  }

  /** `net_sum` is the sum over the crops of sum(area * yield) * factor * 10^9. */
  lemma {:induction false} FutureNetSum(template: Grid, layers: seq<YieldLayer>, table: seq<ResidueRow>)
    requires Fits(template, layers)
    decreases |layers|
    ensures FutureResiduesAllFinal(template, layers, table).netSum == TotalFutureEnergy(layers, table)
  {
    CropsFit(template, layers, table);
    if |layers| > 0 {
      FutureNetSum(template, layers[..|layers| - 1], table);
      FutureCropsPrefix(layers, table);
      FutureCropSum(layers[|layers| - 1], table);
    }
  }

  lemma {:induction false} LoopCombinedAt(template: Grid, crops: seq<FuturePotential>, i: int, j: int)
    requires FutureFits(template, crops) && InBounds(template, i, j)
    decreases |crops|
    ensures forall k :: 0 <= k < |crops| ==> InBounds(crops[k].field, i, j)
    ensures FutureLoop(template, crops).combined[i][j] == StackValue(crops, i, j)
  {
    assert forall k :: 0 <= k < |crops| ==> InBounds(crops[k].field, i, j);
    if |crops| > 0 {
      var init := crops[..|crops| - 1];
      LoopCombinedAt(template, init, i, j);
      assert InBounds(FutureLoop(template, init).combined, i, j);
    }
  }

  /** `combined` is the pixel-wise sum of the crop fields. */
  lemma FutureCombined(template: Grid, layers: seq<YieldLayer>, table: seq<ResidueRow>)
    requires Fits(template, layers)
    ensures var d := FutureResiduesAllFinal(template, layers, table);
      && (forall k :: 0 <= k < |d.crops| ==> SameShape(d.crops[k].field, template))
      && forall i, j :: InBounds(template, i, j) ==> d.combined[i][j] == StackValue(d.crops, i, j)
  {
    CropsFit(template, layers, table);
    var crops := FutureCrops(layers, table);
    LoopKeepsCrops(template, crops);
    forall i, j | InBounds(template, i, j)
      ensures FutureLoop(template, crops).combined[i][j] == StackValue(crops, i, j)
    {
      LoopCombinedAt(template, crops, i, j);
    }
  }
}
