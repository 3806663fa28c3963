/** The residue coefficient tables and the per-crop conversion factor.

  Each row gives, for one residue component of a crop, the residue-to-product
  ratio (RPR), the surplus availability factor (SAF) and the lower heating value
  (LHV, MJ/kg).  A crop's conversion factor is the sum of RPR * SAF * LHV over all
  of its rows; every calculator reaches it by filtering a table on the crop name
  and folding over the rows it finds, so a crop without rows contributes 0. */
module Residues {

  datatype ResidueRow = Row(crop: string, residue: string, rpr: real, saf: real, lhv: real)

  /** RPR * SAF * LHV of one residue component. */
  function Coefficient(r: ResidueRow): real {
    r.rpr * r.saf * r.lhv
  }

  /** The table of the crops with recorded production and harvested area, used by
      the historical and the future cropland calculators. */
  const CropResidueTable: seq<ResidueRow> := CropRowsA + MaizeRows + CropRowsB

  /** Rows from Banana to Groundnut. */
  const CropRowsA: seq<ResidueRow> := [
    Row("Banana", "leaves", 0.35, 0.9, 11.745),
    Row("Banana", "peels", 0.25, 1.0, 14.78),
    Row("Banana", "stem", 4.90, 0.9, 11.66),
    Row("Barley", "stalk", 1.60, 0.60, 18.5),
    Row("Barley", "straw", 0.75, 0.15, 17.5),
    Row("Cassava", "Peelings", 3.0, 0.2, 10.61),
    Row("Cassava", "Stalk", 0.062, 0.407, 16.99),
    Row("Cotton", "stalk", 2.1, 1.0, 15.9),
    Row("Fodder crops", "straw", 0.4, 0.0, 0.0),
    Row("Fruits and nuts", "Pruning", 0.0, 0.0, 0.0),
    Row("Groundnut", "Shells/husks", 0.477, 1.0, 15.56),
    Row("Groundnut", "Straw", 2.3, 1.0, 17.58)
  ]

  /** The three Maize rows: cob, husk and stalk. */
  const MaizeRows: seq<ResidueRow> := [
    Row("Maize", "Cob", 0.273, 1.0, 16.63),
    Row("Maize", "Husk", 0.2, 1.0, 15.56),
    Row("Maize", "Stalk", 2.0, 0.8, 16.3)
  ]

  /** Rows from Millet to the closing "Rest of crops" row. */
  const CropRowsB: seq<ResidueRow> := [
    Row("Millet", "Stalk", 1.75, 0.8, 15.51),
    Row("Millet", "Straw", 1.4, 1.0, 13.0),
    Row("Other cereals", "straw", 1.2, 0.40, 16.845),
    Row("Oil palm", "Empty bunches", 0.428, 1.0, 19.41),
    Row("Oil palm", "Fiber", 0.147, 1.0, 19.94),
    Row("Oil palm", "Fronds", 2.604, 1.0, 7.97),
    Row("Oil palm", "Male bunches", 0.233, 1.0, 14.86),
    Row("Oil palm", "Shells", 0.049, 1.0, 21.1),
    Row("Olive", "Cake", 0.4, 0.9, 19.7),
    Row("Potato and Sweet Potato", "Peelings", 0.675, 0.8, 10.61),
    Row("Pulses", "stalk", 1.78, 0.504, 15.53),
    Row("Rapeseed", "straw", 1.58, 0.23, 14.55),
    Row("Wetland rice", "Husk", 0.23, 0.83, 12.9),
    Row("Wetland rice", "Straw", 1.757, 0.684, 8.83),
    Row("Sorghum", "Husk", 1.4, 1.0, 13.0),
    Row("Sorghum", "Straw", 1.25, 0.8, 12.38),
    Row("Soybean", "Pods", 1.0, 0.8, 18.0),
    Row("Soybean", "Straw", 2.66, 0.8, 18.0),
    Row("Stimulants", "husks", 1.0, 1.0, 14.14),
    Row("Sugarcane", "baggase", 0.25, 1.0, 6.43),
    Row("Sugarcane", "tops/leaves", 0.32, 0.8, 15.8),
    Row("Sugarbeet", "residue", 0.66, 0.09, 20.85),
    Row("Sunflower", "stalk", 2.50, 0.60, 14.2),
    Row("Tobacco", "stalk", 1.20, 0.60, 16.1),
    Row("Vegetables", "residue", 0.675, 0.50, 12.625),
    Row("Wheat", "Husk", 0.23, 0.29, 12.9),
    Row("Wheat", "Straw", 1.2, 0.29, 15.6),
    Row("Yams and other roots", "Peelings", 0.2, 0.8, 10.61),
    Row("Rest of crops", "Residue", 0.0, 0.0, 0.0)
  ]

  /** The table of the crops of the potential-yield catalog, used when allocating
      marginal land.  Rows are kept as listed, including a SAF of 10.8 and the
      all-zero rows. */
  const PotentialYieldResidueTable: seq<ResidueRow> := AlfalfaRows + ((YieldRowsA + YieldRowsB) + (YieldRowsC + YieldRowsD))

  /** The first row: Alfalfa, with SAF 0 and LHV 0. */
  const AlfalfaRows: seq<ResidueRow> := [Row("Alfalfa", "residue", 0.25, 0.0, 0.0)]

  /** Rows from Banana to Cotton. */
  const YieldRowsA: seq<ResidueRow> := [
    Row("Banana", "leaves", 0.35, 0.9, 11.745),
    Row("Banana", "peels", 0.25, 1.0, 14.78),
    Row("Banana", "stem", 4.90, 0.9, 11.66),
    Row("Barley", "stalk", 1.60, 0.60, 18.5),
    Row("Barley", "straw", 0.75, 0.15, 17.5),
    Row("Biomass highland sorghum", "Husk", 1.4, 1.0, 13.0),
    Row("Biomass highland sorghum", "Straw", 1.25, 0.8, 12.38),
    Row("Biomass lowland sorghum", "Husk", 1.4, 1.0, 13.0),
    Row("Biomass lowland sorghum", "Straw", 1.25, 0.8, 12.38),
    Row("Biomass sorghum", "Husk", 1.4, 1.0, 13.0),
    Row("Biomass sorghum", "Straw", 1.25, 0.8, 12.38),
    Row("Biomass temperate sorghum", "Husk", 1.4, 1.0, 13.0),
    Row("Biomass temperate sorghum", "Straw", 1.25, 0.8, 12.38),
    Row("Buckwheat", "straw", 1.2, 0.40, 16.845),
    Row("Cabbage", "residue", 0.675, 0.50, 12.625),
    Row("Carrot", "residue", 0.675, 0.50, 12.625),
    Row("Cassava", "Peelings", 3.0, 0.2, 10.61),
    Row("Cassava", "Stalk", 0.062, 0.407, 16.99),
    Row("Chickpea", "stalk", 1.78, 0.504, 15.53),
    Row("Citrus", "prunings", 0.29, 0.80, 17.85),
    Row("Cocoa", "pods/husks", 1.0, 1.0, 15.48),
    Row("Cocoa cumoun", "pods/husks", 1.0, 1.0, 15.48),
    Row("Cocoa hybrid", "pods/husks", 1.0, 1.0, 15.48),
    Row("Coconut", "husk", 1.03, 1.0, 18.6),
    Row("Coconut", "coir dust", 0.62, 1.0, 13.4),
    Row("Cocoyam", "Peelings", 0.2, 0.8, 10.61),
    Row("Coffee", "husk", 1.0, 1.0, 12.8),
    Row("Coffee arabica", "husk", 1.0, 1.0, 12.8),
    Row("Coffee robusta", "husk", 1.0, 1.0, 12.8),
    Row("Cotton", "stalk", 2.1, 1.0, 15.9)
  ]

  /** Rows from Cowpea to Maize. */
  const YieldRowsB: seq<ResidueRow> := [
    Row("Cowpea", "stalk", 1.78, 0.504, 15.53),
    Row("Dry pea", "stalk", 1.78, 0.504, 15.53),
    Row("Dryland rice", "Husk", 0.23, 0.83, 12.9),
    Row("Dryland rice", "Straw", 1.757, 0.684, 8.83),
    Row("Flax", "stalk", 2.5, 0.6, 14.2),
    Row("Foxtail millet", "Stalk", 1.75, 0.8, 15.51),
    Row("Foxtail millet", "Straw", 1.4, 1.0, 13.0),
    Row("Gram", "stalk", 1.1, 0.38, 16.02),
    Row("Grass", "straw", 0.4, 0.0, 0.0),
    Row("Greater yam", "Peelings", 0.2, 0.8, 10.61),
    Row("Groundnut", "Shells/husks", 0.477, 1.0, 15.56),
    Row("Groundnut", "Straw", 2.3, 1.0, 17.58),
    Row("Highland maize", "Cob", 0.273, 1.0, 16.63),
    Row("Highland maize", "Husk", 0.2, 1.0, 15.56),
    Row("Highland maize", "Stalk", 2.0, 0.8, 16.3),
    Row("Highland sorghum", "Husk", 1.4, 1.0, 13.0),
    Row("Highland sorghum", "Straw", 1.25, 0.8, 12.38),
    Row("Jatropha", "Woody Biomass", 0.25, 0.8, 15.5),
    Row("Jatropha", "Leaves", 0.25, 0.8, 12.0),
    Row("Jatropha", "Pericarp", 0.20, 0.8, 10.0),
    Row("Jatropha", "Tegument", 0.0, 10.8, 16.9),
    Row("Jatropha", "Endosperm Cake", 0.2, 0.8, 13.6),
    Row("Lowland maize", "Cob", 0.273, 1.0, 16.63),
    Row("Lowland maize", "Husk", 0.2, 1.0, 15.56),
    Row("Lowland maize", "Stalk", 2.0, 0.8, 16.3),
    Row("Lowland sorghum", "Husk", 1.4, 1.0, 13.0),
    Row("Lowland sorghum", "Straw", 1.25, 0.8, 12.38),
    Row("Maize", "Cob", 0.273, 1.0, 16.63),
    Row("Maize", "Husk", 0.2, 1.0, 15.56),
    Row("Maize", "Stalk", 2.0, 0.8, 16.3)
  ]

  /** Rows from Millet to Spring barley. */
  const YieldRowsC: seq<ResidueRow> := [
    Row("Millet", "Stalk", 1.75, 0.8, 15.51),
    Row("Millet", "Straw", 1.4, 1.0, 13.0),
    Row("Miscanthus", "residue", 0.42, 1.0, 17.44),
    Row("Napier grass", "straw", 0.4, 0.0, 0.0),
    Row("Oat", "straw", 1.15, 0.4, 18.45),
    Row("Oil palm", "Empty bunches", 0.428, 1.0, 19.41),
    Row("Oil palm", "Fiber", 0.147, 1.0, 19.94),
    Row("Oil palm", "Fronds", 2.604, 1.0, 7.97),
    Row("Oil palm", "Male bunches", 0.233, 1.0, 14.86),
    Row("Oil palm", "Shells", 0.049, 1.0, 21.1),
    Row("Olive", "cake", 0.4, 0.9, 19.7),
    Row("Onion", "residue", 0.675, 0.5, 12.625),
    Row("Para rubber", "residue", 0.0, 0.0, 0.0),
    Row("Pasture legumes", "stalk", 0.0, 0.0, 0.0),
    Row("Pearl millet", "Stalk", 1.75, 0.8, 15.51),
    Row("Pearl millet", "Straw", 1.4, 1.0, 13.0),
    Row("Phaseolus bean", "stalk", 1.78, 0.504, 15.53),
    Row("Pigeonpea", "stalk", 1.78, 0.504, 15.53),
    Row("Rapeseed", "straw", 1.58, 0.23, 14.55),
    Row("Reed canary grass", "straw", 0.4, 0.0, 0.0),
    Row("Rye", "straw", 1.25, 0.4, 15.24),
    Row("Silage maize", "Cob", 0.273, 1.0, 16.63),
    Row("Silage maize", "Husk", 0.2, 1.0, 15.56),
    Row("Silage maize", "Stalk", 2.0, 0.8, 16.3),
    Row("Sorghum", "Husk", 1.4, 1.0, 13.0),
    Row("Sorghum", "Straw", 1.25, 0.8, 12.38),
    Row("Soybean", "Pods", 1.0, 0.8, 18.0),
    Row("Soybean", "Straw", 2.66, 0.8, 18.0),
    Row("Spring barley", "stalk", 1.6, 0.6, 18.5),
    Row("Spring barley", "straw", 0.75, 0.15, 17.5)
  ]

  /** Rows from Spring rye to Yellow yam. */
  const YieldRowsD: seq<ResidueRow> := [
    Row("Spring rye", "straw", 1.25, 0.4, 15.24),
    Row("Spring wheat", "Husk", 0.23, 0.29, 12.9),
    Row("Spring wheat", "Straw", 1.2, 0.29, 15.6),
    Row("Sugarbeet", "residue", 0.66, 0.09, 0.0),
    Row("Sugar Cane", "baggase", 0.25, 1.0, 6.43),
    Row("Sugar Cane", "tops/leaves", 0.32, 0.8, 15.8),
    Row("Sunflower", "stalk", 2.5, 0.6, 14.2),
    Row("Sweet potato", "Peelings", 0.6, 0.8, 10.61),
    Row("Switchgrass", "straw", 0.4, 0.0, 0.0),
    Row("Tea", "husks", 1.0, 1.0, 14.14),
    Row("Temperate maize", "Cob", 0.273, 1.0, 16.63),
    Row("Temperate maize", "Husk", 0.2, 1.0, 15.56),
    Row("Temperate maize", "Stalk", 2.0, 0.8, 16.3),
    Row("Temperate sorghum", "Husk", 1.4, 1.0, 13.0),
    Row("Temperate sorghum", "Straw", 1.25, 0.8, 12.38),
    Row("Tobacco", "stalk", 1.2, 0.6, 16.1),
    Row("Tomato", "stem", 0.3, 0.5, 13.7),
    Row("Tomato", "leaves", 0.3, 0.5, 13.7),
    Row("Wetland rice", "Husk", 0.23, 0.83, 12.9),
    Row("Wetland rice", "Straw", 1.757, 0.684, 8.83),
    Row("Wheat", "Husk", 0.23, 0.29, 12.9),
    Row("Wheat", "Straw", 1.2, 0.29, 15.6),
    Row("White potato", "Peelings", 0.75, 0.8, 10.61),
    Row("White yam", "Peelings", 0.2, 0.8, 10.61),
    Row("Winter barley", "stalk", 1.6, 0.6, 18.5),
    Row("Winter barley", "straw", 0.75, 0.15, 17.5),
    Row("Winter rye", "straw", 1.25, 0.4, 15.24),
    Row("Winter wheat", "Husk", 0.23, 0.29, 12.9),
    Row("Winter wheat", "Straw", 1.2, 0.29, 15.6),
    Row("Yam", "Peelings", 0.2, 0.8, 10.61),
    Row("Yellow yam", "Peelings", 0.2, 0.8, 10.61)
  ]


  /** `table.loc[table['Crop'] == crop]`: the rows of one crop, in table order. */
  function RowsFor(table: seq<ResidueRow>, crop: string): (rows: seq<ResidueRow>)
    ensures |rows| <= |table|
    ensures forall r :: r in rows <==> r in table && r.crop == crop
  {
    if |table| == 0 then []
    else (if table[0].crop == crop then [table[0]] else []) + RowsFor(table[1..], crop)
  }

  /** The accumulation `total += RPR * SAF * LHV` over a crop's rows. */
  function FactorOf(rows: seq<ResidueRow>): real {
    if |rows| == 0 then 0.0 else Coefficient(rows[0]) + FactorOf(rows[1..])
  }

  /** The total conversion factor of `crop` in `table`. */
  function ConversionFactor(table: seq<ResidueRow>, crop: string): real {
    FactorOf(RowsFor(table, crop))
  }

  /** The scalar accumulation over a crop's rows, `acc += total * RPR * SAF * LHV * unit`,
      shared by the historical and the future calculators. */
  function ResidueSumFrom(acc: real, total: real, rows: seq<ResidueRow>, unit: real): real
    decreases |rows|
  {
    if |rows| == 0 then acc
    else ResidueSumFrom(SumStep(acc, total, rows[0], unit), total, rows[1..], unit)
  }

  /** One step of the accumulation: the row's share of `total`. */
  function SumStep(acc: real, total: real, r: ResidueRow, unit: real): real {
    acc + total * (Coefficient(r) * unit)
  }

  /** The accumulation adds the total times the whole factor. */
  lemma {:induction false} ResidueSumIsFactor(acc: real, total: real, rows: seq<ResidueRow>, unit: real)
    decreases rows
    ensures ResidueSumFrom(acc, total, rows, unit) == acc + total * (FactorOf(rows) * unit)
  {
    if |rows| > 0 {
      ResidueSumIsFactor(SumStep(acc, total, rows[0], unit), total, rows[1..], unit);
      Distribute(total, Coefficient(rows[0]), FactorOf(rows[1..]), unit);
    }
  }

  /** The accumulated `total * (factor * unit)` regrouped as
      `total * factor * unit`, the order the crop totals are stated in. */
  lemma ScaleAssoc(t: real, k: real, unit: real)
    ensures t * (k * unit) == t * k * unit
  {
  }

  lemma Distribute(t: real, k0: real, k1: real, unit: real)
    ensures t * (k0 * unit) + t * (k1 * unit) == t * ((k0 + k1) * unit)
  {
  }

  lemma {:induction false} FactorOfAppend(a: seq<ResidueRow>, b: seq<ResidueRow>)
    ensures FactorOf(a + b) == FactorOf(a) + FactorOf(b)
  {
    if |a| > 0 {
      assert (a + b)[1..] == a[1..] + b;
      FactorOfAppend(a[1..], b);
    } else {
      assert a + b == b;
    }
  }

  lemma {:induction false} RowsForAppend(a: seq<ResidueRow>, b: seq<ResidueRow>, crop: string)
    ensures RowsFor(a + b, crop) == RowsFor(a, crop) + RowsFor(b, crop)
  {
    if |a| > 0 {
      assert (a + b)[1..] == a[1..] + b;
      RowsForAppend(a[1..], b, crop);
    } else {
      assert a + b == b;
    }
  }

  /** The factor is a sum over every row of the crop, wherever the rows sit in the
      table: splitting the table splits the factor. */
  lemma FactorSplit(a: seq<ResidueRow>, b: seq<ResidueRow>, crop: string)
    ensures ConversionFactor(a + b, crop) == ConversionFactor(a, crop) + ConversionFactor(b, crop)
  {
    RowsForAppend(a, b, crop);
    FactorOfAppend(RowsFor(a, crop), RowsFor(b, crop));
  }

  /** A crop without rows finds nothing and contributes 0. */
  lemma {:induction false} MissingCropFactor(table: seq<ResidueRow>, crop: string)
    requires Absent(table, crop)
    ensures RowsFor(table, crop) == []
    ensures ConversionFactor(table, crop) == 0.0
  {
    if |table| > 0 {
      assert table[0].crop != crop;
      assert Absent(table[1..], crop) by {
        forall k | 0 <= k < |table[1..]| ensures table[1..][k].crop != crop {
          assert table[1..][k] == table[k + 1];
        }
      }
      MissingCropFactor(table[1..], crop);
    }
  }

  /** Rows of other crops around a crop's own rows do not change its factor. */
  lemma FactorWithin(a: seq<ResidueRow>, rows: seq<ResidueRow>, b: seq<ResidueRow>, crop: string)
    requires Absent(a, crop) && Absent(b, crop)
    requires forall x :: x in rows ==> x.crop == crop
    ensures ConversionFactor(a + rows + b, crop) == FactorOf(rows)
  {
    MissingCropFactor(a, crop);
    MissingCropFactor(b, crop);
    FactorSplit(a + rows, b, crop);
    FactorSplit(a, rows, crop);
    OwnRows(rows, crop);
  }

  /** A crop's rows followed by rows of other crops give the factor of its rows. */
  lemma FactorLeading(rows: seq<ResidueRow>, b: seq<ResidueRow>, crop: string)
    requires Absent(b, crop)
    requires forall x :: x in rows ==> x.crop == crop
    ensures ConversionFactor(rows + b, crop) == FactorOf(rows)
  {
    MissingCropFactor(b, crop);
    FactorSplit(rows, b, crop);
    OwnRows(rows, crop);
  }

  lemma {:induction false} OwnRows(rows: seq<ResidueRow>, crop: string)
    requires forall x :: x in rows ==> x.crop == crop
    ensures RowsFor(rows, crop) == rows
  {
    if |rows| > 0 {
      assert rows[0] in rows;
      OwnRows(rows[1..], crop);
    }
  }

  /** No row of `rows` belongs to `crop`. */
  predicate Absent(rows: seq<ResidueRow>, crop: string) {
    forall k :: 0 <= k < |rows| ==> rows[k].crop != crop
  }

  lemma AbsentAppend(a: seq<ResidueRow>, b: seq<ResidueRow>, crop: string)
    requires Absent(a, crop) && Absent(b, crop)
    ensures Absent(a + b, crop)
  {
    forall k | 0 <= k < |a + b|
      ensures (a + b)[k].crop != crop
    {
      if k < |a| {
        assert (a + b)[k] == a[k];
      } else {
        assert (a + b)[k] == b[k - |a|];
      }
    }
  }

  lemma NoMaizeInA()
    ensures Absent(CropRowsA, "Maize")
  {
  }

  lemma NoMaizeInB()
    ensures Absent(CropRowsB, "Maize")
  {
  }

  /** Maize has three rows (cob, husk, stalk) in the cropland table. */
  lemma MaizeFactor()
    ensures ConversionFactor(CropResidueTable, "Maize") == 0.273 * 1.0 * 16.63 + 0.2 * 1.0 * 15.56 + 2.0 * 0.8 * 16.3
  {
    NoMaizeInA();
    NoMaizeInB();
    FactorWithin(CropRowsA, MaizeRows, CropRowsB, "Maize");
  }

  lemma NoAlfalfaInA()
    ensures Absent(YieldRowsA, "Alfalfa")
  {
  }

  lemma NoAlfalfaInB()
    ensures Absent(YieldRowsB, "Alfalfa")
  {
  }

  lemma NoAlfalfaInC()
    ensures Absent(YieldRowsC, "Alfalfa")
  {
  }

  lemma NoAlfalfaInD()
    ensures Absent(YieldRowsD, "Alfalfa")
  {
  }

  /** Alfalfa's only row has SAF 0 and LHV 0, so its factor is 0: whatever its
      potential yield, its candidate value is 0 at every pixel. */
  lemma AlfalfaFactor()
    ensures ConversionFactor(PotentialYieldResidueTable, "Alfalfa") == 0.0
  {
    NoAlfalfaInA();
    NoAlfalfaInB();
    NoAlfalfaInC();
    NoAlfalfaInD();
    AbsentAppend(YieldRowsA, YieldRowsB, "Alfalfa");
    AbsentAppend(YieldRowsC, YieldRowsD, "Alfalfa");
    AbsentAppend(YieldRowsA + YieldRowsB, YieldRowsC + YieldRowsD, "Alfalfa");
    FactorLeading(AlfalfaRows, (YieldRowsA + YieldRowsB) + (YieldRowsC + YieldRowsD), "Alfalfa");
  }
}
