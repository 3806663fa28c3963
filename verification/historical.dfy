/** Residue energy of the historical years from recorded production
  (`biomass_potential_past`).

  For every crop of the production catalog the clipped production raster
  (1000 t per pixel) is summed with `nansum` and, row by row of the crop's
  residue table entry, multiplied by LHV * SAF * RPR * 10^12 (MJ to J and
  1000 t to kg).  The same per-row products are accumulated per pixel into the
  crop's field, starting from zeros, and every crop field is added into the
  `combined` field.  Raster access and clipping are outside the model: each crop
  arrives as its clipped grid. */
module Historical {
  import opened Grids
  import opened Residues

  /** 10^12: MJ to J times 1000 t to kg. */
  const PastUnit: real := 1000000000000.0

  datatype CropLayer = CropLayer(crop: string, clipped: Grid)

  /** One data variable of the result dataset with its `sum_production` attribute. */
  datatype CropPotential = CropPotential(crop: string, field: Grid, sumProduction: real)

  /** The crops handled so far, the running `net_sum` and the running combined field. */
  datatype PastState = PastState(crops: seq<CropPotential>, netSum: real, combined: Grid)

  /** The returned dataset: the crop entries, the `net_sum` attribute, the
      `combined` variable and its `sum_production` attribute. */
  datatype PastDataset = PastDataset(crops: seq<CropPotential>, netSum: real, combined: Grid, combinedSum: real)

  /** The per-pixel accumulation `crop_residue_shapefile += clipped * LHV * SAF * RPR * unit`. */
  function ResidueFieldFrom(acc: Grid, clipped: Grid, rows: seq<ResidueRow>, unit: real): (r: Grid)
    requires SameShape(acc, clipped)
    ensures SameShape(r, clipped)
    decreases |rows|
  {
    if |rows| == 0 then acc
    else ResidueFieldFrom(AddGrid(acc, ScaleGrid(clipped, Coefficient(rows[0]) * unit)), clipped, rows[1..], unit)
  }

  /** One crop's entry of the dataset. */
  function PastCrop(layer: CropLayer, table: seq<ResidueRow>): (p: CropPotential)
    ensures p.crop == layer.crop && SameShape(p.field, layer.clipped)
  {
    var rows := RowsFor(table, layer.crop);
    CropPotential(layer.crop,
                  ResidueFieldFrom(ZerosLike(layer.clipped), layer.clipped, rows, PastUnit),
                  ResidueSumFrom(0.0, NanSum(layer.clipped), rows, PastUnit))
  }

  /** The entries of the crops `layers`, in catalog order. */
  function PastCrops(layers: seq<CropLayer>, table: seq<ResidueRow>): (cs: seq<CropPotential>)
    ensures |cs| == |layers|
  {
    seq(|layers|, k requires 0 <= k < |layers| => PastCrop(layers[k], table))
  }

  /** Every crop entry has the shape of the reference raster. */
  predicate PastFits(template: Grid, crops: seq<CropPotential>) {
    forall k :: 0 <= k < |crops| ==> SameShape(crops[k].field, template)
  }

  /** The state of the crop loop after adding the entries `crops`: each
      iteration appends the crop's entry, adds its `sum_production` to `net_sum`
      and its field to the combined field. */
  function PastLoop(template: Grid, crops: seq<CropPotential>): (s: PastState)
    requires PastFits(template, crops)
    ensures SameShape(s.combined, template)
    decreases |crops|
  {
    if |crops| == 0 then PastState([], 0.0, ZerosLike(template))
    else
      var prev := PastLoop(template, crops[..|crops| - 1]);
      var p := crops[|crops| - 1];
      assert SameShape(p.field, template);
      PastState(prev.crops + [p], prev.netSum + p.sumProduction, AddGrid(prev.combined, p.field))
  }

  lemma CropsFit(template: Grid, layers: seq<CropLayer>, table: seq<ResidueRow>)
    requires forall k :: 0 <= k < |layers| ==> SameShape(layers[k].clipped, template)
    ensures PastFits(template, PastCrops(layers, table))
  {
    forall k | 0 <= k < |layers|
      ensures SameShape(PastCrops(layers, table)[k].field, template)
    {
      assert PastCrops(layers, table)[k] == PastCrop(layers[k], table);
    }
  }

  /** `biomass_potential_past`: `template` is the reference raster clipped to the
      region, which fixes the shape of the combined field. */
  function BiomassPotentialPast(template: Grid, layers: seq<CropLayer>, table: seq<ResidueRow>): PastDataset
    requires forall k :: 0 <= k < |layers| ==> SameShape(layers[k].clipped, template)
  {
    CropsFit(template, layers, table);
    var s := PastLoop(template, PastCrops(layers, table));
    PastDataset(s.crops, s.netSum, s.combined, NanSum(s.combined))
  }

  // ---------------------------------------------------------------------------
  // Reference definitions

  /** Energy of one crop by the closed formula nansum * factor * 10^12. */
  function CropEnergy(layer: CropLayer, table: seq<ResidueRow>): real {
    NanSum(layer.clipped) * ConversionFactor(table, layer.crop) * PastUnit
  }

  /** The sum of the crop energies, crop after crop. */
  function TotalEnergy(layers: seq<CropLayer>, table: seq<ResidueRow>): real {
    if |layers| == 0 then 0.0 else TotalEnergy(layers[..|layers| - 1], table) + CropEnergy(layers[|layers| - 1], table)
  }

  /** The sum of the recorded `sum_production` attributes. */
  function SumOfProductions(crops: seq<CropPotential>): real {
    if |crops| == 0 then 0.0 else crops[0].sumProduction + SumOfProductions(crops[1..])
  }

  /** The element-wise sum of the crop fields at one pixel: missing if any crop
      field is missing there. */
  function StackCell(crops: seq<CropPotential>, i: int, j: int): Cell
    requires forall k :: 0 <= k < |crops| ==> InBounds(crops[k].field, i, j)
  {
    if |crops| == 0 then Val(0.0)
    else
      assert InBounds(crops[|crops| - 1].field, i, j);
      AddCell(StackCell(crops[..|crops| - 1], i, j), crops[|crops| - 1].field[i][j])
  }

  // ---------------------------------------------------------------------------
  // Properties

  /** The per-row accumulation followed at one pixel. */
  function ResidueCellFrom(acc: Cell, c: Cell, rows: seq<ResidueRow>, unit: real): Cell
    decreases |rows|
  {
    if |rows| == 0 then acc
    else ResidueCellFrom(CellStep(acc, c, rows[0], unit), c, rows[1..], unit)
  }

  /** One step of the per-pixel accumulation. */
  function CellStep(acc: Cell, c: Cell, r: ResidueRow, unit: real): Cell {
    AddCell(acc, ScaleCell(c, Coefficient(r) * unit))
  }

  lemma {:induction false} ResidueFieldAtPixel(acc: Grid, clipped: Grid, rows: seq<ResidueRow>, unit: real, i: int, j: int)
    requires SameShape(acc, clipped)
    requires InBounds(clipped, i, j)
    decreases |rows|
    ensures ResidueFieldFrom(acc, clipped, rows, unit)[i][j] == ResidueCellFrom(acc[i][j], clipped[i][j], rows, unit)
  {
    if |rows| > 0 {
      var next := AddGrid(acc, ScaleGrid(clipped, Coefficient(rows[0]) * unit));
      assert InBounds(next, i, j);
      assert InBounds(ScaleGrid(clipped, Coefficient(rows[0]) * unit), i, j);
      ResidueFieldAtPixel(next, clipped, rows[1..], unit, i, j);
    }
  }

  /** A row set's factor expressed in the unit of the result. */
  function ScaledFactor(rows: seq<ResidueRow>, unit: real): real {
    FactorOf(rows) * unit
  }

  /** Once a pixel is missing it stays missing. */
  lemma {:induction false} MissingStays(c: Cell, rows: seq<ResidueRow>, unit: real)
    decreases rows
    ensures ResidueCellFrom(NoData, c, rows, unit) == NoData
  {
    if |rows| > 0 {
      MissingStays(c, rows[1..], unit);
    }
  }

  /** At a pixel holding a value, the per-pixel accumulation is the scalar one. */
  lemma {:induction false} CellAccumulatesLikeSum(a: real, v: real, rows: seq<ResidueRow>, unit: real)
    decreases rows
    ensures ResidueCellFrom(Val(a), Val(v), rows, unit) == Val(ResidueSumFrom(a, v, rows, unit))
  {
    if |rows| > 0 {
      var next := SumStep(a, v, rows[0], unit);
      assert CellStep(Val(a), Val(v), rows[0], unit) == Val(next);
      CellAccumulatesLikeSum(next, v, rows[1..], unit);
    }
  }

  /** A missing operand makes the sum missing. */
  lemma Absorb(acc: Cell, c: Cell, k: real)
    requires acc.NoData? || c.NoData?
    ensures AddCell(acc, ScaleCell(c, k)) == NoData
  {
  }

  lemma ResidueCellStep(acc: Cell, c: Cell, rows: seq<ResidueRow>, unit: real)
    requires |rows| > 0
    ensures ResidueCellFrom(acc, c, rows, unit)
            == ResidueCellFrom(CellStep(acc, c, rows[0], unit), c, rows[1..], unit)
  {
  }

  /** At one pixel, accumulating the rows one by one adds the cell scaled by the
      crop's whole factor. */
  lemma ResidueCellIsFactor(acc: Cell, c: Cell, rows: seq<ResidueRow>, unit: real)
    requires |rows| > 0
    ensures ResidueCellFrom(acc, c, rows, unit) == AddCell(acc, ScaleCell(c, ScaledFactor(rows, unit)))
  {
    if acc.Val? && c.Val? {
      CellAccumulatesLikeSum(acc.v, c.v, rows, unit);
      ResidueSumIsFactor(acc.v, c.v, rows, unit);
    } else {
      ResidueCellStep(acc, c, rows, unit);
      Absorb(acc, c, Coefficient(rows[0]) * unit);
      Absorb(acc, c, ScaledFactor(rows, unit));
      MissingStays(c, rows[1..], unit);
    }
  }

  /** A crop's `sum_production` is nansum(clipped) * factor * 10^12. */
  lemma PastCropSum(layer: CropLayer, table: seq<ResidueRow>)
    ensures PastCrop(layer, table).sumProduction == CropEnergy(layer, table)
  {
    ResidueSumIsFactor(0.0, NanSum(layer.clipped), RowsFor(table, layer.crop), PastUnit);
  }

  /** A crop's field is its clipped grid scaled by factor * 10^12, missing where
      the clipped grid is missing, except that a crop without residue rows keeps
      the zeros it started from. */
  lemma PastCropField(layer: CropLayer, table: seq<ResidueRow>)
    ensures SameShape(PastCrop(layer, table).field, layer.clipped)
    ensures forall i, j :: InBounds(layer.clipped, i, j) ==>
              PastCrop(layer, table).field[i][j]
              == if RowsFor(table, layer.crop) == [] then Val(0.0)
                 else ScaleCell(layer.clipped[i][j], ConversionFactor(table, layer.crop) * PastUnit)
  {
    forall i, j | InBounds(layer.clipped, i, j)
      ensures PastCrop(layer, table).field[i][j]
              == if RowsFor(table, layer.crop) == [] then Val(0.0)
                 else ScaleCell(layer.clipped[i][j], ConversionFactor(table, layer.crop) * PastUnit)
    {
      PastCropPixel(layer, table, i, j);
    }
  }

  lemma PastCropPixel(layer: CropLayer, table: seq<ResidueRow>, i: int, j: int)
    requires InBounds(layer.clipped, i, j)
    ensures InBounds(PastCrop(layer, table).field, i, j)
    ensures PastCrop(layer, table).field[i][j]
            == if RowsFor(table, layer.crop) == [] then Val(0.0)
               else ScaleCell(layer.clipped[i][j], ConversionFactor(table, layer.crop) * PastUnit)
  {
    var rows := RowsFor(table, layer.crop);
    var z := ZerosLike(layer.clipped);
    assert PastCrop(layer, table).field == ResidueFieldFrom(z, layer.clipped, rows, PastUnit);
    assert InBounds(z, i, j);
    ResidueFieldAtPixel(z, layer.clipped, rows, PastUnit, i, j);
    if rows != [] {
      ResidueCellIsFactor(z[i][j], layer.clipped[i][j], rows, PastUnit);
      assert ScaledFactor(rows, PastUnit) == ConversionFactor(table, layer.crop) * PastUnit;
    }
  }

  /** The loop keeps the entries it is given, in order. */
  lemma {:induction false} LoopKeepsCrops(template: Grid, crops: seq<CropPotential>)
    requires PastFits(template, crops)
    decreases |crops|
    ensures PastLoop(template, crops).crops == crops
  {
    if |crops| > 0 {
      var init := crops[..|crops| - 1];
      LoopKeepsCrops(template, init);
      assert PastLoop(template, crops).crops == PastLoop(template, init).crops + [crops[|crops| - 1]];
      assert init + [crops[|crops| - 1]] == crops;
    }
  }

  /** The dataset holds one entry per crop, in catalog order. */
  lemma PastEntries(template: Grid, layers: seq<CropLayer>, table: seq<ResidueRow>)
    requires forall k :: 0 <= k < |layers| ==> SameShape(layers[k].clipped, template)
    ensures |BiomassPotentialPast(template, layers, table).crops| == |layers|
    ensures forall k :: 0 <= k < |layers| ==> BiomassPotentialPast(template, layers, table).crops[k] == PastCrop(layers[k], table)
  {
    CropsFit(template, layers, table);
    LoopKeepsCrops(template, PastCrops(layers, table));
  }

  lemma PastCropsPrefix(layers: seq<CropLayer>, table: seq<ResidueRow>)
    requires |layers| > 0
    ensures PastCrops(layers, table)[..|layers| - 1] == PastCrops(layers[..|layers| - 1], table)
    ensures PastCrops(layers, table)[|layers| - 1] == PastCrop(layers[|layers| - 1], table)
  {
  }

  /** `net_sum` is the sum over the crops of nansum(clipped) * factor * 10^12. */
  lemma {:induction false} PastNetSum(template: Grid, layers: seq<CropLayer>, table: seq<ResidueRow>)
    requires forall k :: 0 <= k < |layers| ==> SameShape(layers[k].clipped, template)
    decreases |layers|
    ensures BiomassPotentialPast(template, layers, table).netSum == TotalEnergy(layers, table)
  {
    CropsFit(template, layers, table);
    if |layers| > 0 {
      PastNetSum(template, layers[..|layers| - 1], table);
      PastCropsPrefix(layers, table);
      PastCropSum(layers[|layers| - 1], table);
    }
  }

  /** Each crop's entry states its energy and its field by the closed formula. */
  lemma PastCropEntries(template: Grid, layers: seq<CropLayer>, table: seq<ResidueRow>)
    requires forall k :: 0 <= k < |layers| ==> SameShape(layers[k].clipped, template)
    ensures var d := BiomassPotentialPast(template, layers, table);
      && |d.crops| == |layers|
      && forall k :: 0 <= k < |layers| ==>
           && d.crops[k].crop == layers[k].crop
           && d.crops[k].sumProduction == CropEnergy(layers[k], table)
           && SameShape(d.crops[k].field, template)
  {
    PastEntries(template, layers, table);
    forall k | 0 <= k < |layers|
      ensures PastCrop(layers[k], table).sumProduction == CropEnergy(layers[k], table)
    {
      PastCropSum(layers[k], table);
    }
  }

  lemma {:induction false} LoopCombinedAt(template: Grid, crops: seq<CropPotential>, i: int, j: int)
    requires PastFits(template, crops) && InBounds(template, i, j)
    decreases |crops|
    ensures forall k :: 0 <= k < |crops| ==> InBounds(crops[k].field, i, j)
    ensures PastLoop(template, crops).combined[i][j] == StackCell(crops, i, j)
  {
    assert forall k :: 0 <= k < |crops| ==> InBounds(crops[k].field, i, j);
    if |crops| > 0 {
      var init := crops[..|crops| - 1];
      LoopCombinedAt(template, init, i, j);
      assert InBounds(PastLoop(template, init).combined, i, j);
    }
  }

  /** `combined` is the pixel-wise sum of the crop fields, missing wherever one of
      them is missing. */
  lemma PastCombined(template: Grid, layers: seq<CropLayer>, table: seq<ResidueRow>)
    requires forall k :: 0 <= k < |layers| ==> SameShape(layers[k].clipped, template)
    ensures var d := BiomassPotentialPast(template, layers, table);
      && (forall k :: 0 <= k < |d.crops| ==> SameShape(d.crops[k].field, template))
      && forall i, j :: InBounds(template, i, j) ==> d.combined[i][j] == StackCell(d.crops, i, j)
  {
    CropsFit(template, layers, table);
    var crops := PastCrops(layers, table);
    LoopKeepsCrops(template, crops);
    forall i, j | InBounds(template, i, j)
      ensures PastLoop(template, crops).combined[i][j] == StackCell(crops, i, j)
    {
      LoopCombinedAt(template, crops, i, j);
    }
  }

  lemma {:induction false} SumOfProductionsAppend(a: seq<CropPotential>, p: CropPotential)
    ensures SumOfProductions(a + [p]) == SumOfProductions(a) + p.sumProduction
  {
    if |a| > 0 {
      assert (a + [p])[1..] == a[1..] + [p];
      SumOfProductionsAppend(a[1..], p);
    } else {
      assert a + [p] == [p];
    }
  }

  lemma {:induction false} LoopNetSum(template: Grid, crops: seq<CropPotential>)
    requires PastFits(template, crops)
    decreases |crops|
    ensures PastLoop(template, crops).netSum == SumOfProductions(crops)
  {
    if |crops| > 0 {
      var init := crops[..|crops| - 1];
      LoopNetSum(template, init);
      SumOfProductionsAppend(init, crops[|crops| - 1]);
      assert init + [crops[|crops| - 1]] == crops;
    }
  }

  /** `net_sum` equals the sum of the per-crop `sum_production` attributes. */
  lemma NetSumIsSumOfCrops(template: Grid, layers: seq<CropLayer>, table: seq<ResidueRow>)
    requires forall k :: 0 <= k < |layers| ==> SameShape(layers[k].clipped, template)
    ensures BiomassPotentialPast(template, layers, table).netSum
            == SumOfProductions(BiomassPotentialPast(template, layers, table).crops)
  {
    CropsFit(template, layers, table);
    LoopNetSum(template, PastCrops(layers, table));
    LoopKeepsCrops(template, PastCrops(layers, table));
  }

  /** Every pixel of the grid holds a value. */
  ghost predicate NoMissing(g: Grid) {
    forall i, j :: InBounds(g, i, j) ==> g[i][j].Val?
  }

  lemma ZerosSum<T>(g: seq<seq<T>>)
    ensures NanSum(ZerosLike(g)) == 0.0
  {
    FieldSumZero(ZeroFill(ZerosLike(g)));
  }

  /** Without missing pixels a crop's field sums to its `sum_production`. */
  lemma CropFieldTotal(layer: CropLayer, table: seq<ResidueRow>)
    requires NoMissing(layer.clipped)
    ensures NoMissing(PastCrop(layer, table).field)
    ensures NanSum(PastCrop(layer, table).field) == PastCrop(layer, table).sumProduction
  {
    var p := PastCrop(layer, table);
    var k := ConversionFactor(table, layer.crop) * PastUnit;
    PastCropField(layer, table);
    PastCropSum(layer, table);
    if RowsFor(table, layer.crop) == [] {
      CellwiseExt(p.field, ZerosLike(layer.clipped));
      ZerosSum(layer.clipped);
    } else {
      CellwiseExt(p.field, ScaleGrid(layer.clipped, k));
      NanSumScale(layer.clipped, k);
      ScaleAssoc(NanSum(layer.clipped), ConversionFactor(table, layer.crop), PastUnit);
    }
  }

  /** Entries whose fields have no missing pixel and sum to their own
      `sum_production` add up to a combined field that sums to `net_sum`. */
  lemma {:induction false} LoopTotalsAgree(template: Grid, crops: seq<CropPotential>)
    requires PastFits(template, crops)
    requires forall k :: 0 <= k < |crops| ==> NoMissing(crops[k].field) && NanSum(crops[k].field) == crops[k].sumProduction
    decreases |crops|
    ensures NoMissing(PastLoop(template, crops).combined)
    ensures NanSum(PastLoop(template, crops).combined) == PastLoop(template, crops).netSum
  {
    if |crops| == 0 {
      ZerosSum(template);
    } else {
      var init := crops[..|crops| - 1];
      var p := crops[|crops| - 1];
      LoopTotalsAgree(template, init);
      var prev := PastLoop(template, init);
      assert SameShape(prev.combined, p.field);
      NanSumAdd(prev.combined, p.field);
    }
  }

  /** When no crop raster has a missing pixel, the `sum_production` of the
      combined field equals `net_sum`. */
  lemma PastTotalsAgree(template: Grid, layers: seq<CropLayer>, table: seq<ResidueRow>)
    requires forall k :: 0 <= k < |layers| ==> SameShape(layers[k].clipped, template)
    requires forall k :: 0 <= k < |layers| ==> NoMissing(layers[k].clipped)
    ensures NoMissing(BiomassPotentialPast(template, layers, table).combined)
    ensures BiomassPotentialPast(template, layers, table).combinedSum == BiomassPotentialPast(template, layers, table).netSum
  {
    CropsFit(template, layers, table);
    var crops := PastCrops(layers, table);
    forall k | 0 <= k < |crops|
      ensures NoMissing(crops[k].field) && NanSum(crops[k].field) == crops[k].sumProduction
    {
      CropFieldTotal(layers[k], table);
    }
    LoopTotalsAgree(template, crops);
  }
}
