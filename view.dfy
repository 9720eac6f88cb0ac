/**
 * LUMatrixView: a read-only unit-lower (L) or upper (U) reading of one shared,
 * already factorized matrix. It holds a reference to that matrix and copies
 * nothing, so later writes to the matrix show through every view over it.
 */
module Views {
  import opened LinAlg
  import opened Outcomes
  import opened Matrices

  class LUMatrixView {
    /** The shared storage this view reads. */
    const matrix: Matrix
    /** true for the L view, false for the U view. */
    const isL: bool

    constructor (matrix: Matrix, isL: bool)
      ensures this.matrix == matrix && this.isL == isL
    {
      this.matrix := matrix;
      this.isL := isL;
    }

    function Rows(): nat { matrix.Rows() }
    function Cols(): nat { matrix.Cols() }
    function IsSquareMatrix(): bool { matrix.IsSquareMatrix() }

    predicate InBounds(row: int, col: int) {
      0 <= row < Rows() && 0 <= col < Cols()
    }

    /** The entry the view shows at (row, col). */
    function Entry(row: nat, col: nat): real
      reads matrix.data
      requires row < Rows() && col < Cols()
    {
      if isL then (if row == col then 1.0 else if row > col then matrix.data[row, col] else 0.0)
      else (if col >= row then matrix.data[row, col] else 0.0)
    }

    /** The view as a value: the unit lower or the upper triangle of the shared matrix. */
    function Value(): (v: Mat)
      reads matrix.data
      ensures IsMat(v, Rows(), Cols())
    {
      if isL then UnitLower(matrix.Value()) else Upper(matrix.Value())
    }

    /**
     * A bounds-checked read. The L view answers 1 on the diagonal, the stored
     * entry strictly below it and 0 above it; the U view answers the stored
     * entry on and above the diagonal and 0 below it.
     */
    method Get(row: int, col: int) returns (res: Result<real>)
      ensures !InBounds(row, col) ==> res == Err(OutOfBounds)
      ensures InBounds(row, col) && isL ==>
        res == Ok(if row == col then 1.0 else if row > col then matrix.data[row, col] else 0.0)
      ensures InBounds(row, col) && !isL ==>
        res == Ok(if col >= row then matrix.data[row, col] else 0.0)
      ensures InBounds(row, col) ==> res == Ok(Entry(row, col))
    {
      if !InBounds(row, col) {
        return Err(OutOfBounds);
      }
      if isL {
        if row == col {
          return Ok(1.0);
        }
        if row > col {
          return Ok(matrix.data[row, col]);
        }
      } else {
        if col >= row {
          return Ok(matrix.data[row, col]);
        }
      }
      res := Ok(0.0);
    }

    /** Views are read-only: every write is refused and nothing changes. */
    method Set(row: int, col: int, value: real) returns (res: Outcome)
      ensures res == Fail(Unsupported)
    {
      res := Fail(Unsupported);
    }

    /** Views are read-only: every row swap is refused and nothing changes. */
    method SwapRows(r1: int, r2: int) returns (res: Result<LUMatrixView>)
      ensures res == Err(Unsupported)
    {
      res := Err(Unsupported);
    }

    /**
     * The determinant of a triangular view: 1 for L, the product of the stored
     * diagonal for U. Either way it is the cofactor determinant of the view.
     */
    method Determinant() returns (res: Result<real>)
      ensures !IsSquareMatrix() ==> res == Err(NotSquare)
      ensures IsSquareMatrix() && isL ==> res == Ok(1.0)
      ensures IsSquareMatrix() && !isL ==> res == Ok(Product(Diagonal(matrix.Value())))
      ensures IsSquareMatrix() ==> res == Ok(Det(Value()))
    {
      if !IsSquareMatrix() {
        return Err(NotSquare);
      }
      if isL {
        DetUnitLower(matrix.Value());
        return Ok(1.0);
      }
      ghost var diag := Diagonal(matrix.Value());
      var d := 1.0;
      var i := 0;
      while i < Rows()
        invariant 0 <= i <= Rows()
        invariant d == Product(diag[..i])
      {
        assert diag[..i + 1] == diag[..i] + [matrix.data[i, i]];
        ProductSnoc(diag[..i], matrix.data[i, i]);
        d := Times(d, matrix.data[i, i]);
        i := i + 1;
      }
      assert diag[..i] == diag;
      DetUpper(matrix.Value());
      res := Ok(d);
    }

    /** A new view of the same kind over the same storage: an alias, not a deep copy. */
    method Copy() returns (v: LUMatrixView)
      ensures fresh(v) && v.matrix == matrix && v.isL == isL
    {
      v := new LUMatrixView(matrix, isL);
    }

    /** A view of the same kind over a fresh zero matrix of the given shape. */
    method NewInstance(rows: int, cols: int) returns (res: Result<LUMatrixView>)
      ensures rows >= 1 && cols >= 1 ==>
        (res.Ok? && fresh(res.value) && fresh(res.value.matrix) && fresh(res.value.matrix.data)
         && res.value.isL == isL && res.value.matrix.Value() == Zero(rows, cols))
      ensures !(rows >= 1 && cols >= 1) ==> res == Err(InvalidSize)
    {
      var m := matrix.NewInstance(rows, cols);
      if m.Err? {
        return Err(m.error);
      }
      var v := new LUMatrixView(m.value, isL);
      res := Ok(v);
    }
  }

  /** The determinant of a square U view is the product of the stored diagonal. */
  lemma UpperViewDeterminant(v: LUMatrixView)
    requires v.IsSquareMatrix() && !v.isL
    ensures Det(v.Value()) == Product(Diagonal(v.matrix.Value()))
  {
    DetUpper(v.matrix.Value());
  }

  /** Each entry of a view's value is the entry the view shows. */
  lemma ValueEntry(v: LUMatrixView, row: nat, col: nat)
    requires row < v.Rows() && col < v.Cols()
    ensures v.Value()[row][col] == v.Entry(row, col)
  {
  }
}
