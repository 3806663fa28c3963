/** The best crop of every pixel (`find_max_for_each_pixel_crop_and_values_corrected`).

  For each crop of the potential-yield catalog, in catalog order, the crop's
  masked raster (the output of `remove_pixels`) is turned into a candidate
  field: for every residue row of the crop, `data * LHV * SAF * RPR` with NaN
  read as 0, added onto zeros.  The first crop initialises the running maximum
  and labels every pixel with its name; each later crop replaces value and label
  where its candidate is strictly greater.  At the end, pixels won by "Alfalfa"
  are relabelled and keep their value: assigning None into the string array
  `max_crops` stores the four-character string "None". */
module Allocator {
  import opened Grids
  import opened Residues
  import opened Outcomes

  /** A pixel's label in `max_crops`, an entry of a NumPy string array. */
  type Label = string

  /** What `max_crops[...] = None` stores in a string array: `str(None)`. */
  const NoneLabel: Label := "None"

  /** One crop's masked raster. */
  datatype CropRaster = CropRaster(crop: string, data: Grid)

  /** `max_values` and `max_crops`. */
  datatype Allocation = Allocation(values: Field, labels: seq<seq<Label>>)

  /** The crop whose winning pixels are relabelled "None" at the end. */
  const Alfalfa: string := "Alfalfa"

  /** All rasters share the first one's shape, so the element-wise comparisons
      line up. */
  predicate Aligned(layers: seq<CropRaster>) {
    forall k :: 0 <= k < |layers| ==> SameShape(layers[k].data, layers[0].data)
  }

  // ---------------------------------------------------------------------------
  // Candidate fields

  /** `crop_residue_sum_array` after the residue rows `rows`, starting from `acc`. */
  function CandidateFrom(acc: Field, data: Grid, rows: seq<ResidueRow>): (r: Field)
    requires SameShape(acc, data)
    ensures SameShape(r, data)
    decreases |rows|
  {
    if |rows| == 0 then acc
    else CandidateFrom(AddField(acc, ZeroFill(ScaleGrid(data, Coefficient(rows[0])))), data, rows[1..])
  }

  /** The crop's candidate field, from zeros over all of its residue rows. */
  function Candidate(layer: CropRaster, table: seq<ResidueRow>): (f: Field)
    ensures SameShape(f, layer.data)
  {
    CandidateFrom(ZeroField(layer.data), layer.data, RowsFor(table, layer.crop))
  }

  lemma AddProducts(acc: real, v: real, k0: real, k1: real, k: real)
    requires k == k0 + k1
    ensures acc + v * k0 + v * k1 == acc + v * k
  {
  }

  /** `nan_to_num(c * k)` is `nan_to_num(c) * k`. */
  lemma ScaledValue(c: Cell, k: real)
    ensures ValueOr0(ScaleCell(c, k)) == ValueOr0(c) * k
  {
  }

  /** One residue row adds the pixel's share to the accumulator. */
  lemma CandidateStepAtPixel(acc: Field, data: Grid, k0: real, i: int, j: int)
    requires SameShape(acc, data) && InBounds(data, i, j)
    ensures InBounds(AddField(acc, ZeroFill(ScaleGrid(data, k0))), i, j)
    ensures AddField(acc, ZeroFill(ScaleGrid(data, k0)))[i][j] == acc[i][j] + ValueOr0(data[i][j]) * k0
  {
    var scaled := ScaleGrid(data, k0);
    assert InBounds(scaled, i, j) && scaled[i][j] == ScaleCell(data[i][j], k0);
    var filled := ZeroFill(scaled);
    assert InBounds(filled, i, j) && filled[i][j] == ValueOr0(scaled[i][j]);
    ScaledValue(data[i][j], k0);
  }

  lemma {:induction false} CandidateFromAtPixel(acc: Field, data: Grid, rows: seq<ResidueRow>, k: real, i: int, j: int)
    requires SameShape(acc, data) && InBounds(data, i, j)
    requires k == FactorOf(rows)
    ensures CandidateFrom(acc, data, rows)[i][j] == acc[i][j] + ValueOr0(data[i][j]) * k
    decreases rows
  {
    if |rows| > 0 {
      var k0 := Coefficient(rows[0]);
      var k1 := FactorOf(rows[1..]);
      var next := AddField(acc, ZeroFill(ScaleGrid(data, k0)));
      CandidateStepAtPixel(acc, data, k0, i, j);
      CandidateFromAtPixel(next, data, rows[1..], k1, i, j);
      AddProducts(acc[i][j], ValueOr0(data[i][j]), k0, k1, k);
    }
  }

  /** A candidate pixel is the masked value, NaN read as 0, times the crop's
      conversion factor; a crop without residue rows has an all-zero candidate. */
  lemma CandidateAtPixel(layer: CropRaster, table: seq<ResidueRow>, i: int, j: int)
    requires InBounds(layer.data, i, j)
    ensures Candidate(layer, table)[i][j] == ValueOr0(layer.data[i][j]) * ConversionFactor(table, layer.crop)
  {
    CandidateFromAtPixel(ZeroField(layer.data), layer.data, RowsFor(table, layer.crop),
                         ConversionFactor(table, layer.crop), i, j);
  }

  // ---------------------------------------------------------------------------
  // The running maximum

  /** Every pixel labelled with `mark`. */
  function Fill<T>(g: seq<seq<T>>, mark: Label): (r: seq<seq<Label>>)
    ensures SameShape(r, g)
    ensures forall i, j :: InBounds(r, i, j) ==> r[i][j] == mark
  {
    seq(|g|, i requires 0 <= i < |g| => seq(|g[i]|, j requires 0 <= j < |g[i]| => mark))
  }

  /** One crop's name with its candidate field. */
  datatype Scored = Scored(crop: string, values: Field)

  /** The candidates of the crops `layers`, in catalog order. */
  function Scores(layers: seq<CropRaster>, table: seq<ResidueRow>): (s: seq<Scored>)
    ensures |s| == |layers|
  {
    seq(|layers|, k requires 0 <= k < |layers| => Scored(layers[k].crop, Candidate(layers[k], table)))
  }

  /** Every candidate has the first one's shape. */
  predicate ScoresAligned(s: seq<Scored>) {
    forall k :: 0 <= k < |s| ==> SameShape(s[k].values, s[0].values)
  }

  lemma ScoresFit(layers: seq<CropRaster>, table: seq<ResidueRow>)
    requires Aligned(layers)
    ensures ScoresAligned(Scores(layers, table))
    ensures |layers| > 0 ==> SameShape(Scores(layers, table)[0].values, layers[0].data)
  {
    var s := Scores(layers, table);
    forall k | 0 <= k < |layers|
      ensures SameShape(s[k].values, layers[0].data)
    {
      assert s[k].values == Candidate(layers[k], table);
    }
  }

  /** `max_values` and `max_crops` after the candidates `s`: the first crop
      initialises both, each later one wins where it is strictly greater. */
  function MaxLoop(s: seq<Scored>): (a: Allocation)
    requires |s| > 0 && ScoresAligned(s)
    ensures SameShape(a.values, s[0].values) && SameShape(a.labels, s[0].values)
    decreases |s|
  {
    if |s| == 1 then
      Allocation(s[0].values, Fill(s[0].values, s[0].crop))
    else
      var prev := MaxLoop(s[..|s| - 1]);
      var c := s[|s| - 1].values;
      assert SameShape(c, s[0].values);
      Allocation(
        seq(|c|, i requires 0 <= i < |c| => seq(|c[i]|, j requires 0 <= j < |c[i]| =>
          if c[i][j] > prev.values[i][j] then c[i][j] else prev.values[i][j])),
        seq(|c|, i requires 0 <= i < |c| => seq(|c[i]|, j requires 0 <= j < |c[i]| =>
          if c[i][j] > prev.values[i][j] then s[|s| - 1].crop else prev.labels[i][j])))
  }

  /** `max_crops[max_crops == "Alfalfa"] = None`: the string array stores
      "None" at those pixels. */
  function BlankAlfalfa(labels: seq<seq<Label>>): (r: seq<seq<Label>>)
    ensures SameShape(r, labels)
    ensures forall i, j :: InBounds(r, i, j) ==>
              r[i][j] == if labels[i][j] == Alfalfa then NoneLabel else labels[i][j]
  {
    seq(|labels|, i requires 0 <= i < |labels| => seq(|labels[i]|, j requires 0 <= j < |labels[i]| =>
      if labels[i][j] == Alfalfa then NoneLabel else labels[i][j]))
  }

  /** `find_max_for_each_pixel_crop_and_values_corrected` on the masked rasters
      of the catalog's crops.  With no crop at all the final relabelling
      subscripts None and fails. */
  function FindMax(layers: seq<CropRaster>, table: seq<ResidueRow>): (r: Result<Allocation>)
    requires Aligned(layers)
    ensures r.Err? <==> |layers| == 0
    ensures r.Err? ==> r.failure == NoLayers
    ensures r.Ok? ==> SameShape(r.value.values, layers[0].data) && SameShape(r.value.labels, layers[0].data)
    ensures r.Ok? ==> forall i, j :: InBounds(r.value.labels, i, j) ==> r.value.labels[i][j] != Alfalfa
  {
    if |layers| == 0 then Err(NoLayers)
    else
      ScoresFit(layers, table);
      var m := MaxLoop(Scores(layers, table));
      Ok(Allocation(m.values, BlankAlfalfa(m.labels)))
  }

  // ---------------------------------------------------------------------------
  // Reference: the first maximum of a sequence

  /** `vals[k]` is the maximum `m` of `vals`, and no earlier entry reaches it. */
  predicate IsFirstMax(vals: seq<real>, k: int, m: real) {
    && 0 <= k < |vals| && vals[k] == m
    && (forall n :: 0 <= n < |vals| ==> vals[n] <= m)
    && (forall n :: 0 <= n < k ==> vals[n] < m)
  }

  /** At most one index is the first maximum. */
  lemma FirstMaxUnique(vals: seq<real>, k1: int, m1: real, k2: int, m2: real)
    requires IsFirstMax(vals, k1, m1) && IsFirstMax(vals, k2, m2)
    ensures k1 == k2 && m1 == m2
  {
    assert vals[k2] <= m1 && vals[k1] <= m2;
  }

  /** The candidates of every crop at pixel (i, j), in catalog order. */
  function PixelValues(layers: seq<CropRaster>, table: seq<ResidueRow>, i: int, j: int): (vals: seq<real>)
    requires forall k :: 0 <= k < |layers| ==> InBounds(layers[k].data, i, j)
    ensures |vals| == |layers|
  {
    seq(|layers|, k requires 0 <= k < |layers| =>
      assert InBounds(layers[k].data, i, j); Candidate(layers[k], table)[i][j])
  }

  /** The strict running maximum over `vals` and the index it came from. */
  function RunningMax(vals: seq<real>): (p: (real, nat))
    requires |vals| > 0
    ensures p.1 < |vals| && vals[p.1] == p.0
  {
    if |vals| == 1 then (vals[0], 0)
    else
      var prev := RunningMax(vals[..|vals| - 1]);
      if vals[|vals| - 1] > prev.0 then (vals[|vals| - 1], |vals| - 1) else prev
  }

  /** A strict running maximum ends on the first maximum. */
  lemma {:induction false} RunningMaxIsFirstMax(vals: seq<real>)
    requires |vals| > 0
    ensures IsFirstMax(vals, RunningMax(vals).1, RunningMax(vals).0)
    decreases |vals|
  {
    if |vals| > 1 {
      var init := vals[..|vals| - 1];
      RunningMaxIsFirstMax(init);
      assert forall n :: 0 <= n < |init| ==> vals[n] == init[n];
    }
  }

  /** The candidates of `s` at pixel (i, j). */
  function ScoresAt(s: seq<Scored>, i: int, j: int): (vals: seq<real>)
    requires forall k :: 0 <= k < |s| ==> InBounds(s[k].values, i, j)
    ensures |vals| == |s|
  {
    seq(|s|, k requires 0 <= k < |s| => assert InBounds(s[k].values, i, j); s[k].values[i][j])
  }

  lemma {:induction false} MaxLoopAtPixel(s: seq<Scored>, i: int, j: int)
    requires |s| > 0 && ScoresAligned(s) && InBounds(s[0].values, i, j)
    ensures forall k :: 0 <= k < |s| ==> InBounds(s[k].values, i, j)
    ensures var a := MaxLoop(s);
      var w := RunningMax(ScoresAt(s, i, j));
      a.values[i][j] == w.0 && a.labels[i][j] == s[w.1].crop
    decreases |s|
  {
    assert forall k :: 0 <= k < |s| ==> InBounds(s[k].values, i, j);
    if |s| > 1 {
      var init := s[..|s| - 1];
      assert init[0] == s[0];
      MaxLoopAtPixel(init, i, j);
      assert ScoresAt(s, i, j)[..|s| - 1] == ScoresAt(init, i, j);
    }
  }

  lemma ScoresAtPixel(layers: seq<CropRaster>, table: seq<ResidueRow>, i: int, j: int)
    requires forall k :: 0 <= k < |layers| ==> InBounds(layers[k].data, i, j)
    ensures forall k :: 0 <= k < |layers| ==> InBounds(Scores(layers, table)[k].values, i, j)
    ensures ScoresAt(Scores(layers, table), i, j) == PixelValues(layers, table, i, j)
  {
    var s := Scores(layers, table);
    forall k | 0 <= k < |layers|
      ensures InBounds(s[k].values, i, j)
    {
      assert s[k].values == Candidate(layers[k], table);
    }
  }

  /** The result of the crop loop, pixel by pixel: `max_values[p]` is the
      largest candidate at p, the label names the first crop in catalog order
      that reaches it (ties keep the earlier crop), and a pixel won by Alfalfa
      is labelled "None". */
  lemma FindMaxIsFirstMax(layers: seq<CropRaster>, table: seq<ResidueRow>, i: int, j: int)
    requires |layers| > 0 && Aligned(layers) && InBounds(layers[0].data, i, j)
    ensures forall k :: 0 <= k < |layers| ==> InBounds(layers[k].data, i, j)
    ensures FindMax(layers, table).Ok?
    ensures var a := FindMax(layers, table).value;
      exists w :: IsFirstMax(PixelValues(layers, table, i, j), w, a.values[i][j])
                  && a.labels[i][j] == if layers[w].crop == Alfalfa then NoneLabel else layers[w].crop
  {
    ScoresFit(layers, table);
    ScoresAtPixel(layers, table, i, j);
    MaxLoopAtPixel(Scores(layers, table), i, j);
    var vals := PixelValues(layers, table, i, j);
    RunningMaxIsFirstMax(vals);
    var w := RunningMax(vals).1;
    var a := FindMax(layers, table).value;
    assert IsFirstMax(vals, w, a.values[i][j]);
  }

  /** Each candidate compared at a pixel is the masked value there, NaN read as
      0, times the crop's conversion factor. */
  lemma PixelValuesAreScaled(layers: seq<CropRaster>, table: seq<ResidueRow>, i: int, j: int)
    requires forall k :: 0 <= k < |layers| ==> InBounds(layers[k].data, i, j)
    ensures forall k :: 0 <= k < |layers| ==>
              PixelValues(layers, table, i, j)[k] == ValueOr0(layers[k].data[i][j]) * ConversionFactor(table, layers[k].crop)
  {
    forall k | 0 <= k < |layers|
      ensures PixelValues(layers, table, i, j)[k] == ValueOr0(layers[k].data[i][j]) * ConversionFactor(table, layers[k].crop)
    {
      CandidateAtPixel(layers[k], table, i, j);
    }
  }
}
