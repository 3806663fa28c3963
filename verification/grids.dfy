/** Two-dimensional rasters and the NaN-aware arithmetic the pipeline applies to them.

  A `Grid` is a band read from a raster: every cell either holds a value or is
  NaN (`NoData`).  A raster's nodata sentinel is not NaN: NumPy reads it as the
  ordinary value it holds, so it is a `Val`.  A `Field` is a band in which
  nothing is missing any more, such as the result of `nan_to_num`.  Element-wise
  operations follow NumPy: a missing operand makes the result missing. */
module Grids {

  datatype Cell = NoData | Val(v: real)

  type Grid = seq<seq<Cell>>
  type Field = seq<seq<real>>

  /** Two rasters with the same number of rows and the same row lengths. */
  predicate SameShape<S, T>(a: seq<seq<S>>, b: seq<seq<T>>) {
    |a| == |b| && forall i :: 0 <= i < |a| ==> |a[i]| == |b[i]|
  }

  /** A rectangular raster of `height` rows and `width` columns. */
  predicate IsRect<T>(g: seq<seq<T>>, height: nat, width: nat) {
    |g| == height && forall i :: 0 <= i < |g| ==> |g[i]| == width
  }

  predicate InBounds<T>(g: seq<seq<T>>, row: int, col: int) {
    0 <= row < |g| && 0 <= col < |g[row]|
  }

  /** `np.nan_to_num` on one cell: a missing value reads as 0. */
  function ValueOr0(c: Cell): real {
    if c.Val? then c.v else 0.0
  }

  function ScaleCell(c: Cell, k: real): Cell {
    if c.Val? then Val(c.v * k) else NoData
  }

  function AddCell(x: Cell, y: Cell): Cell {
    if x.Val? && y.Val? then Val(x.v + y.v) else NoData
  }

  /** `np.zeros_like`: a grid of the given shape holding 0 everywhere. */
  function ZerosLike<T>(g: seq<seq<T>>): (z: Grid)
    ensures SameShape(z, g)
    ensures forall i, j :: InBounds(z, i, j) ==> z[i][j] == Val(0.0)
  {
    seq(|g|, i requires 0 <= i < |g| => seq(|g[i]|, j => Val(0.0)))
  }

  function ZeroField<T>(g: seq<seq<T>>): (z: Field)
    ensures SameShape(z, g)
    ensures forall i, j :: InBounds(z, i, j) ==> z[i][j] == 0.0
  {
    seq(|g|, i requires 0 <= i < |g| => seq(|g[i]|, j => 0.0))
  }

  /** `np.nan_to_num` on a whole grid. */
  function ZeroFill(g: Grid): (f: Field)
    ensures SameShape(f, g)
    ensures forall i, j :: InBounds(f, i, j) ==> f[i][j] == ValueOr0(g[i][j])
  {
    seq(|g|, i requires 0 <= i < |g| => seq(|g[i]|, j requires 0 <= j < |g[i]| => ValueOr0(g[i][j])))
  }

  function ScaleGrid(g: Grid, k: real): (r: Grid)
    ensures SameShape(r, g)
    ensures forall i, j :: InBounds(r, i, j) ==> r[i][j] == ScaleCell(g[i][j], k)
  {
    seq(|g|, i requires 0 <= i < |g| => seq(|g[i]|, j requires 0 <= j < |g[i]| => ScaleCell(g[i][j], k)))
  }

  function AddGrid(x: Grid, y: Grid): (r: Grid)
    requires SameShape(x, y)
    ensures SameShape(r, x)
    ensures forall i, j :: InBounds(r, i, j) ==> r[i][j] == AddCell(x[i][j], y[i][j])
  {
    seq(|x|, i requires 0 <= i < |x| => seq(|x[i]|, j requires 0 <= j < |x[i]| => AddCell(x[i][j], y[i][j])))
  }

  function ScaleField(f: Field, k: real): (r: Field)
    ensures SameShape(r, f)
    ensures forall i, j :: InBounds(r, i, j) ==> r[i][j] == f[i][j] * k
  {
    seq(|f|, i requires 0 <= i < |f| => seq(|f[i]|, j requires 0 <= j < |f[i]| => f[i][j] * k))
  }

  function AddField(x: Field, y: Field): (r: Field)
    requires SameShape(x, y)
    ensures SameShape(r, x)
    ensures forall i, j :: InBounds(r, i, j) ==> r[i][j] == x[i][j] + y[i][j]
  {
    seq(|x|, i requires 0 <= i < |x| => seq(|x[i]|, j requires 0 <= j < |x[i]| => x[i][j] + y[i][j]))
  }

  function MulField(x: Field, y: Field): (r: Field)
    requires SameShape(x, y)
    ensures SameShape(r, x)
    ensures forall i, j :: InBounds(r, i, j) ==> r[i][j] == x[i][j] * y[i][j]
  {
    seq(|x|, i requires 0 <= i < |x| => seq(|x[i]|, j requires 0 <= j < |x[i]| => x[i][j] * y[i][j]))
  }

  function RowSum(r: seq<real>): real {
    if |r| == 0 then 0.0 else r[0] + RowSum(r[1..])
  }

  /** `np.sum` of a field. */
  function FieldSum(f: Field): real {
    if |f| == 0 then 0.0 else RowSum(f[0]) + FieldSum(f[1..])
  }

  /** `np.nansum`: the sum of the cells that hold a value. */
  function NanSum(g: Grid): real {
    FieldSum(ZeroFill(g))
  }

  lemma {:induction false} RowSumScale(r: seq<real>, k: real, s: seq<real>)
    requires |s| == |r|
    requires forall j :: 0 <= j < |r| ==> s[j] == r[j] * k
    ensures RowSum(s) == RowSum(r) * k
  {
    if |r| > 0 {
      RowSumScale(r[1..], k, s[1..]);
    }
  }

  /** `s` is `f` with every cell multiplied by `k`. */
  ghost predicate ScaledBy(s: Field, f: Field, k: real) {
    SameShape(s, f) && forall i, j :: InBounds(f, i, j) ==> s[i][j] == f[i][j] * k
  }

  lemma ScaledByRest(s: Field, f: Field, k: real)
    requires |f| > 0 && ScaledBy(s, f, k)
    ensures ScaledBy(s[1..], f[1..], k)
    ensures RowSum(s[0]) == RowSum(f[0]) * k
  {
    forall j | 0 <= j < |f[0]|
      ensures s[0][j] == f[0][j] * k
    {
      assert InBounds(f, 0, j);
    }
    RowSumScale(f[0], k, s[0]);
    forall i, j | InBounds(f[1..], i, j)
      ensures s[1..][i][j] == f[1..][i][j] * k
    {
      assert InBounds(f, i + 1, j);
    }
  }

  lemma {:induction false} FieldSumScaleOf(f: Field, k: real, s: Field)
    requires ScaledBy(s, f, k)
    ensures FieldSum(s) == FieldSum(f) * k
    decreases |f|
  {
    if |f| > 0 {
      ScaledByRest(s, f, k);
      FieldSumScaleOf(f[1..], k, s[1..]);
      Distrib(RowSum(f[0]), FieldSum(f[1..]), FieldSum(f), k);
    }
  }

  lemma Distrib(a: real, b: real, t: real, k: real)
    requires t == a + b
    ensures a * k + b * k == t * k
  {
  }

  /** Scaling every cell scales the total. */
  lemma FieldSumScale(f: Field, k: real)
    ensures FieldSum(ScaleField(f, k)) == FieldSum(f) * k
  {
    FieldSumScaleOf(f, k, ScaleField(f, k));
  }

  lemma {:induction false} RowSumAdd(x: seq<real>, y: seq<real>, s: seq<real>)
    requires |x| == |y| == |s|
    requires forall j :: 0 <= j < |x| ==> s[j] == x[j] + y[j]
    ensures RowSum(s) == RowSum(x) + RowSum(y)
  {
    if |x| > 0 {
      RowSumAdd(x[1..], y[1..], s[1..]);
    }
  }

  lemma {:induction false} FieldSumAddOf(x: Field, y: Field, s: Field)
    requires SameShape(x, y) && SameShape(s, x)
    requires forall i, j :: InBounds(x, i, j) ==> s[i][j] == x[i][j] + y[i][j]
    ensures FieldSum(s) == FieldSum(x) + FieldSum(y)
    decreases |x|
  {
    if |x| > 0 {
      forall j | 0 <= j < |x[0]|
        ensures s[0][j] == x[0][j] + y[0][j]
      {
        assert InBounds(x, 0, j);
      }
      RowSumAdd(x[0], y[0], s[0]);
      forall i, j | InBounds(x[1..], i, j)
        ensures s[1..][i][j] == x[1..][i][j] + y[1..][i][j]
      {
        assert InBounds(x, i + 1, j);
      }
      FieldSumAddOf(x[1..], y[1..], s[1..]);
    }
  }

  /** The total of an element-wise sum is the sum of the totals. */
  lemma FieldSumAdd(x: Field, y: Field)
    requires SameShape(x, y)
    ensures FieldSum(AddField(x, y)) == FieldSum(x) + FieldSum(y)
  {
    FieldSumAddOf(x, y, AddField(x, y));
  }

  lemma {:induction false} RowSumZero(r: seq<real>)
    requires forall j :: 0 <= j < |r| ==> r[j] == 0.0
    ensures RowSum(r) == 0.0
  {
    if |r| > 0 {
      RowSumZero(r[1..]);
    }
  }

  /** A field of zeros sums to zero. */
  lemma {:induction false} FieldSumZero(f: Field)
    requires forall i, j :: InBounds(f, i, j) ==> f[i][j] == 0.0
    ensures FieldSum(f) == 0.0
  {
    if |f| > 0 {
      RowSumZero(f[0]);
      FieldSumZero(f[1..]);
    }
  }

  /** Two fields or grids that agree cell by cell are equal. */
  lemma CellwiseExt<T>(x: seq<seq<T>>, y: seq<seq<T>>)
    requires SameShape(x, y)
    requires forall i, j :: InBounds(x, i, j) ==> x[i][j] == y[i][j]
    ensures x == y
  {
    forall i | 0 <= i < |x|
      ensures x[i] == y[i]
    {
      assert forall j :: 0 <= j < |x[i]| ==> InBounds(x, i, j);
    }
  }

  /** A cell that is missing in one operand may only meet a missing cell or a 0
      in the other; then the missing cell drops nothing from `nansum`. */
  predicate Compatible(x: Cell, y: Cell) {
    (x.NoData? ==> y == NoData || y == Val(0.0)) && (y.NoData? ==> x == NoData || x == Val(0.0))
  }

  /** `nansum(x + y) == nansum(x) + nansum(y)` whenever no value is lost to a
      NaN in the other operand. */
  lemma NanSumAdd(x: Grid, y: Grid)
    requires SameShape(x, y)
    requires forall i, j :: InBounds(x, i, j) ==> Compatible(x[i][j], y[i][j])
    ensures NanSum(AddGrid(x, y)) == NanSum(x) + NanSum(y)
  {
    var zx, zy := ZeroFill(x), ZeroFill(y);
    CellwiseExt(ZeroFill(AddGrid(x, y)), AddField(zx, zy));
    FieldSumAdd(zx, zy);
  }

  /** `nansum(g * k) == nansum(g) * k`. */
  lemma NanSumScale(g: Grid, k: real)
    ensures NanSum(ScaleGrid(g, k)) == NanSum(g) * k
  {
    var lhs, rhs := ZeroFill(ScaleGrid(g, k)), ScaleField(ZeroFill(g), k);
    forall i, j | InBounds(lhs, i, j)
      ensures lhs[i][j] == rhs[i][j]
    {
      assert InBounds(g, i, j) && InBounds(ScaleGrid(g, k), i, j);
      assert lhs[i][j] == ValueOr0(ScaleCell(g[i][j], k));
    }
    CellwiseExt(lhs, rhs);
    FieldSumScale(ZeroFill(g), k);
  }
}
