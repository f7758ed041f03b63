/** The Python layer's view of a dataset: a numpy array of floats, the
    input checks every public entry point runs first, and the constant-column
    mask of `_data_format` and `energy`. The scaling to zero mean and unit
    standard deviation is floating-point work and is not modelled: the
    model keeps the column-filtered values. */
module Dataset {
  import opened Seqs

  /** A float as far as the checks care: a finite value, NaN, or an infinity. */
  datatype Float = Finite(value: real) | NaN | Inf(negative: bool)

  /** numpy's `==` on floats: NaN equals nothing, not even itself. */
  predicate FloatEq(a: Float, b: Float) {
    match (a, b)
    case (Finite(x), Finite(y)) => x == y
    case (Inf(s), Inf(t)) => s == t
    case _ => false
  }

  type Row = seq<Float>

  /** A numpy array: its number of dimensions and, when that is 2, its rows
      and its column count (which an array with no rows still has). */
  datatype Array = Array(ndim: nat, rows: seq<Row>, ncols: nat)

  /** numpy guarantees a 2-D array is rectangular. */
  predicate WellShaped(a: Array) {
    forall i :: 0 <= i < |a.rows| ==> |a.rows[i]| == a.ncols
  }

  /** The exceptions the public functions raise, one per distinct message,
      plus the two that numpy raises on its own (`randint(0)`, and indexing
      row 0 of an empty array). */
  datatype Error =
    | DataNotMatrix       // data is not a 2-D ndarray
    | DataNotFinite       // data holds a NaN or an infinity
    | PointsNotMatrix     // points is not a 2-D ndarray
    | PointsNotFinite     // points holds a NaN or an infinity
    | ColumnMismatch      // data and points differ in column count
    | StartOutOfRange     // a given start u1 is not a row position
    | RatioOutOfRange     // r is outside [2, N / 2] (`twin`)
    | FoldCountOutOfRange // k is outside [2, N / 2] (`multiplet`)
    | NotPowerOfTwo       // strategy 2 with a k that is no power of two
    | EmptyDraw           // numpy: `randint(0)` has an empty range
    | NoFirstRow          // numpy: `data[0, :]` on an array with no rows

  datatype Result<T> = Ok(value: T) | Err(error: Error)

  datatype Option<T> = None | Some(value: T)

  /** `not (np.isnan(data).any() or np.isinf(data).any())` */
  predicate AllFinite(rows: seq<Row>) {
    forall i, j :: 0 <= i < |rows| && 0 <= j < |rows[i]| ==> rows[i][j].Finite?
  }

  /** Column j holds the same value as row 0 in every row: the entry of
      `np.all(data == data[0, :], axis=0)` for column j. */
  predicate Constant(rows: seq<Row>, j: nat)
    requires |rows| > 0
    requires forall i :: 0 <= i < |rows| ==> j < |rows[i]|
  {
    forall i :: 0 <= i < |rows| ==> FloatEq(rows[i][j], rows[0][j])
  }

  /** `np.invert(const_cols)` as the list of column indices it keeps, among the
      first c columns: exactly the non-constant ones, in increasing order. */
  function KeptColumns(rows: seq<Row>, c: nat): (kept: seq<nat>)
    requires |rows| > 0
    requires forall i :: 0 <= i < |rows| ==> c <= |rows[i]|
    ensures StrictlyIncreasing(kept) && InRange(kept, c)
    ensures forall j: nat :: j < c ==> (j in kept <==> !Constant(rows, j))
  {
    if c == 0 then []
    else
      var front := KeptColumns(rows, c - 1);
      if Constant(rows, c - 1) then front else front + [c - 1]
  }

  /** `data[:, kept]`: every row cut down to the kept columns. */
  function DropColumns(rows: seq<Row>, kept: seq<nat>, c: nat): (out: seq<Row>)
    requires InRange(kept, c)
    requires forall i :: 0 <= i < |rows| ==> |rows[i]| == c
    ensures |out| == |rows|
    ensures forall i :: 0 <= i < |rows| ==> Elems(out[i]) <= Elems(rows[i])
  {
    seq(|rows|, i requires 0 <= i < |rows| => Gather(rows[i], kept))
  }

  /** The column filter of `_data_format`: drops exactly the constant columns,
      keeps the others in order, and leaves the number and order of rows
      unchanged, so a row position in its result is a row position in `rows`. */
  function DataFormat(a: Array): (out: seq<Row>)
    requires WellShaped(a) && |a.rows| > 0
    ensures |out| == |a.rows|
    ensures forall i :: 0 <= i < |out| ==> out[i] == Gather(a.rows[i], KeptColumns(a.rows, a.ncols))
    ensures forall i, t :: 0 <= i < |out| && 0 <= t < |out[i]| ==>
      exists j :: 0 <= j < a.ncols && !Constant(a.rows, j) && out[i][t] == a.rows[i][j]
    ensures forall i :: 0 <= i < |out| ==>
      |out[i]| == |set j: nat | j < a.ncols && !Constant(a.rows, j)|
  {
    var kept := KeptColumns(a.rows, a.ncols);
    var out := DropColumns(a.rows, kept, a.ncols);
    KeptCount(a.rows, a.ncols);
    forall i, t | 0 <= i < |out| && 0 <= t < |out[i]|
      ensures exists j :: 0 <= j < a.ncols && !Constant(a.rows, j) && out[i][t] == a.rows[i][j]
    {
      assert kept[t] in kept;
    }
    out
  }

  /** The number of kept columns is the number of non-constant columns. */
  lemma KeptCount(rows: seq<Row>, c: nat)
    requires |rows| > 0
    requires forall i :: 0 <= i < |rows| ==> c <= |rows[i]|
    ensures |KeptColumns(rows, c)| == |set j: nat | j < c && !Constant(rows, j)|
  {
    var kept := KeptColumns(rows, c);
    StrictlyIncreasingDistinct(kept);
    DistinctCard(kept);
    assert Elems(kept) == set j: nat | j < c && !Constant(rows, j);
  }

  /** The column handling of `energy`: both arrays are checked, then the
      columns that are constant in `data` are dropped from `data` and from
      `points` alike; whether a column is constant in `points` plays no part.
      The energy distance itself (`energy_cpp`) is not part of this model. */
  function EnergyInputs(data: Array, points: Array): (r: Result<(seq<Row>, seq<Row>)>)
    requires WellShaped(data) && WellShaped(points)
    ensures data.ndim != 2 ==> r == Err(DataNotMatrix)
    ensures data.ndim == 2 && !AllFinite(data.rows) ==> r == Err(DataNotFinite)
    ensures data.ndim == 2 && AllFinite(data.rows) ==>
      (points.ndim != 2 ==> r == Err(PointsNotMatrix))
    ensures data.ndim == 2 && AllFinite(data.rows) && points.ndim == 2 ==>
      (!AllFinite(points.rows) ==> r == Err(PointsNotFinite))
    ensures data.ndim == 2 && AllFinite(data.rows) && points.ndim == 2 && AllFinite(points.rows) ==>
      (data.ncols != points.ncols ==> r == Err(ColumnMismatch))
      && (data.ncols == points.ncols && |data.rows| == 0 ==> r == Err(NoFirstRow))
    ensures r.Ok? <==>
      data.ndim == 2 && points.ndim == 2 && AllFinite(data.rows) && AllFinite(points.rows)
      && data.ncols == points.ncols && |data.rows| > 0
    ensures r.Ok? ==>
      var kept := KeptColumns(data.rows, data.ncols);
      && |r.value.0| == |data.rows| && |r.value.1| == |points.rows|
      && (forall i :: 0 <= i < |data.rows| ==> r.value.0[i] == Gather(data.rows[i], kept))
      && (forall i :: 0 <= i < |points.rows| ==> r.value.1[i] == Gather(points.rows[i], kept))
  {
    if data.ndim != 2 then Err(DataNotMatrix)
    else if !AllFinite(data.rows) then Err(DataNotFinite)
    else if points.ndim != 2 then Err(PointsNotMatrix)
    else if !AllFinite(points.rows) then Err(PointsNotFinite)
    else if data.ncols != points.ncols then Err(ColumnMismatch)
    else if |data.rows| == 0 then Err(NoFirstRow)
    else
      var kept := KeptColumns(data.rows, data.ncols);
      Ok((DropColumns(data.rows, kept, data.ncols), DropColumns(points.rows, kept, data.ncols)))
  }
}
