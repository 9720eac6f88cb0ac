/**
 * The dense matrix the engine runs on: the contract of IMatrix, implemented
 * over a two-dimensional array of reals that the in-place operations update.
 */
module Matrices {
  import opened LinAlg
  import opened Outcomes

  class Matrix {
    /** The entries; the shape never changes after creation. */
    const data: array2<real>
    /** How many row swaps have been performed on this matrix. */
    var swapCount: nat

    function Rows(): nat { data.Length0 }
    function Cols(): nat { data.Length1 }

    /** The entries as a value. */
    function Value(): (v: Mat)
      reads data
      ensures IsMat(v, Rows(), Cols())
      ensures forall i, j {:trigger v[i][j]} :: 0 <= i < Rows() && 0 <= j < Cols() ==> v[i][j] == data[i, j]
    {
      seq(data.Length0, i requires 0 <= i < data.Length0 reads data =>
        seq(data.Length1, j requires 0 <= j < data.Length1 reads data => data[i, j]))
    }

    predicate InBounds(row: int, col: int) {
      0 <= row < Rows() && 0 <= col < Cols()
    }

    predicate SameShape(other: Matrix) {
      Rows() == other.Rows() && Cols() == other.Cols()
    }

    function IsSquareMatrix(): bool { Rows() == Cols() }

    function NumOfRowsSwapped(): nat
      reads this
    {
      swapCount
    }

    /** An all-zero matrix of the given shape. */
    constructor (rows: nat, cols: nat)
      ensures Rows() == rows && Cols() == cols && fresh(data)
      ensures Value() == Zero(rows, cols) && swapCount == 0
    {
      data := new real[rows, cols]((i, j) => 0.0);
      swapCount := 0;
      new;
      MatEq(Value(), Zero(rows, cols), rows, cols);
    }

    /** A matrix holding the given entries. */
    constructor Of(m: Mat, rows: nat, cols: nat)
      requires IsMat(m, rows, cols)
      ensures Rows() == rows && Cols() == cols && fresh(data)
      ensures Value() == m && swapCount == 0
    {
      data := new real[rows, cols]((i, j) requires 0 <= i < rows && 0 <= j < cols => m[i][j]);
      swapCount := 0;
      new;
      MatEq(Value(), m, rows, cols);
    }

    method Get(row: int, col: int) returns (res: Result<real>)
      ensures InBounds(row, col) ==> res == Ok(Value()[row][col])
      ensures !InBounds(row, col) ==> res == Err(OutOfBounds)
    {
      if !InBounds(row, col) {
        return Err(OutOfBounds);
      }
      res := Ok(data[row, col]);
    }

    method Set(row: int, col: int, value: real) returns (res: Outcome)
      modifies data
      ensures InBounds(row, col) ==> res == Pass && Value() == old(Value())[row := old(Value())[row][col := value]]
      ensures !InBounds(row, col) ==> res == Fail(OutOfBounds) && Value() == old(Value())
    {
      if !InBounds(row, col) {
        return Fail(OutOfBounds);
      }
      ghost var before := Value();
      data[row, col] := value;
      MatEq(Value(), before[row := before[row][col := value]], Rows(), Cols());
      res := Pass;
    }

    /** Adds `other` into this matrix element by element and returns this matrix. */
    method Add(other: Matrix) returns (res: Result<Matrix>)
      modifies data
      ensures SameShape(other) ==> res == Ok(this) && Value() == LinAlg.Add(old(Value()), old(other.Value()), Rows(), Cols())
      ensures !SameShape(other) ==> res == Err(DimensionMismatch) && Value() == old(Value())
    {
      if !SameShape(other) {
        return Err(DimensionMismatch);
      }
      ghost var a, b := Value(), other.Value();
      var i := 0;
      while i < Rows()
        invariant 0 <= i <= Rows()
        invariant forall r, c :: 0 <= r < Rows() && 0 <= c < Cols() ==>
          data[r, c] == if r < i then a[r][c] + b[r][c] else a[r][c]
        invariant forall r, c :: i <= r < Rows() && 0 <= c < Cols() ==> other.data[r, c] == b[r][c]
      {
        var j := 0;
        while j < Cols()
          invariant 0 <= j <= Cols()
          invariant forall r, c :: 0 <= r < Rows() && 0 <= c < Cols() ==>
            data[r, c] == if r < i || (r == i && c < j) then a[r][c] + b[r][c] else a[r][c]
          invariant forall r, c :: 0 <= r < Rows() && 0 <= c < Cols() && (r > i || (r == i && c >= j)) ==>
            other.data[r, c] == b[r][c]
        {
          data[i, j] := data[i, j] + other.data[i, j];
          j := j + 1;
        }
        i := i + 1;
      }
      MatEq(Value(), LinAlg.Add(a, b, Rows(), Cols()), Rows(), Cols());
      res := Ok(this);
    }

    /** Subtracts `other` from this matrix element by element and returns this matrix. */
    method Sub(other: Matrix) returns (res: Result<Matrix>)
      modifies data
      ensures SameShape(other) ==> res == Ok(this) && Value() == LinAlg.Sub(old(Value()), old(other.Value()), Rows(), Cols())
      ensures !SameShape(other) ==> res == Err(DimensionMismatch) && Value() == old(Value())
    {
      if !SameShape(other) {
        return Err(DimensionMismatch);
      }
      ghost var a, b := Value(), other.Value();
      var i := 0;
      while i < Rows()
        invariant 0 <= i <= Rows()
        invariant forall r, c :: 0 <= r < Rows() && 0 <= c < Cols() ==>
          data[r, c] == if r < i then a[r][c] - b[r][c] else a[r][c]
        invariant forall r, c :: i <= r < Rows() && 0 <= c < Cols() ==> other.data[r, c] == b[r][c]
      {
        var j := 0;
        while j < Cols()
          invariant 0 <= j <= Cols()
          invariant forall r, c :: 0 <= r < Rows() && 0 <= c < Cols() ==>
            data[r, c] == if r < i || (r == i && c < j) then a[r][c] - b[r][c] else a[r][c]
          invariant forall r, c :: 0 <= r < Rows() && 0 <= c < Cols() && (r > i || (r == i && c >= j)) ==>
            other.data[r, c] == b[r][c]
        {
          data[i, j] := data[i, j] - other.data[i, j];
          j := j + 1;
        }
        i := i + 1;
      }
      MatEq(Value(), LinAlg.Sub(a, b, Rows(), Cols()), Rows(), Cols());
      res := Ok(this);
    }

    /** Multiplies every entry by `x` and returns this matrix. */
    method Scalar(x: real) returns (res: Matrix)
      modifies data
      ensures res == this && Value() == Scale(old(Value()), x, Rows(), Cols())
    {
      ghost var a := Value();
      var i := 0;
      while i < Rows()
        invariant 0 <= i <= Rows()
        invariant forall r, c :: 0 <= r < Rows() && 0 <= c < Cols() ==>
          data[r, c] == if r < i then x * a[r][c] else a[r][c]
      {
        var j := 0;
        while j < Cols()
          invariant 0 <= j <= Cols()
          invariant forall r, c :: 0 <= r < Rows() && 0 <= c < Cols() ==>
            data[r, c] == if r < i || (r == i && c < j) then x * a[r][c] else a[r][c]
        {
          data[i, j] := x * data[i, j];
          j := j + 1;
        }
        i := i + 1;
      }
      MatEq(Value(), Scale(a, x, Rows(), Cols()), Rows(), Cols());
      res := this;
    }

    /** A deep copy: the same entries in fresh storage. */
    method Copy() returns (c: Matrix)
      ensures fresh(c) && fresh(c.data) && c.Rows() == Rows() && c.Cols() == Cols() && c.Value() == Value()
    {
      c := new Matrix.Of(Value(), Rows(), Cols());
    }

    /** Copies, then adds into the copy; this matrix is left as it was. */
    method NAdd(other: Matrix) returns (res: Result<Matrix>)
      ensures SameShape(other) ==> res.Ok? && fresh(res.value) && fresh(res.value.data) && res.value.Value() == LinAlg.Add(Value(), other.Value(), Rows(), Cols())
      ensures !SameShape(other) ==> res == Err(DimensionMismatch)
    {
      var c := Copy();
      res := c.Add(other);
    }

    /** Copies, then subtracts from the copy; this matrix is left as it was. */
    method NSub(other: Matrix) returns (res: Result<Matrix>)
      ensures SameShape(other) ==> res.Ok? && fresh(res.value) && fresh(res.value.data) && res.value.Value() == LinAlg.Sub(Value(), other.Value(), Rows(), Cols())
      ensures !SameShape(other) ==> res == Err(DimensionMismatch)
    {
      var c := Copy();
      res := c.Sub(other);
    }

    /** Copies, then scales the copy; this matrix is left as it was. */
    method NScalar(x: real) returns (res: Matrix)
      ensures fresh(res) && fresh(res.data) && res.Value() == Scale(Value(), x, Rows(), Cols())
    {
      var c := Copy();
      res := c.Scalar(x);
    }

    method Transpose() returns (t: Matrix)
      ensures fresh(t) && fresh(t.data) && t.Value() == LinAlg.Transpose(Value(), Rows(), Cols())
    {
      t := new Matrix.Of(LinAlg.Transpose(Value(), Rows(), Cols()), Cols(), Rows());
    }

    /** The product this * other, in a new matrix. */
    method Mul(other: Matrix) returns (res: Result<Matrix>)
      ensures Cols() == other.Rows() ==>
        (res.Ok? && fresh(res.value) && fresh(res.value.data) && res.value.Value() == LinAlg.Mul(Value(), other.Value(), Rows(), Cols(), other.Cols()))
      ensures Cols() != other.Rows() ==> res == Err(DimensionMismatch)
    {
      if Cols() != other.Rows() {
        return Err(DimensionMismatch);
      }
      ghost var a, b := Value(), other.Value();
      var n, p, q := Rows(), Cols(), other.Cols();
      var c := new Matrix(n, q);
      var i := 0;
      while i < n
        invariant 0 <= i <= n
        invariant forall r, k :: 0 <= r < i && 0 <= k < q ==> c.data[r, k] == Span(a, b, r, k, 0, p)
      {
        var j := 0;
        while j < q
          invariant 0 <= j <= q
          invariant forall r, k :: 0 <= r < n && 0 <= k < q && (r < i || (r == i && k < j)) ==>
            c.data[r, k] == Span(a, b, r, k, 0, p)
        {
          var s := RowTimesColumn(other, i, j);
          c.data[i, j] := s;
          j := j + 1;
        }
        i := i + 1;
      }
      MatEq(c.Value(), LinAlg.Mul(a, b, n, p, q), n, q);
      res := Ok(c);
    }

    /** The sum over k of this[i][k] * other[k][j]: one entry of the product. */
    method RowTimesColumn(other: Matrix, i: nat, j: nat) returns (s: real)
      requires Cols() == other.Rows() && i < Rows() && j < other.Cols()
      ensures s == Span(Value(), other.Value(), i, j, 0, Cols())
    {
      ghost var a, b := Value(), other.Value();
      s := 0.0;
      var k := 0;
      while k < Cols()
        invariant 0 <= k <= Cols()
        invariant s == Span(a, b, i, j, 0, k)
      {
        s := s + Times(data[i, k], other.data[k, j]);
        k := k + 1;
      }
    }

    /** The determinant by cofactor expansion; fails on a non-square matrix. */
    method Determinant() returns (res: Result<real>)
      ensures IsSquareMatrix() ==> res == Ok(Det(Value()))
      ensures !IsSquareMatrix() ==> res == Err(NotSquare)
    {
      if !IsSquareMatrix() {
        return Err(NotSquare);
      }
      res := Ok(Det(Value()));
    }

    /** A new matrix without row `row` and column `col`. */
    method SubMatrix(row: int, col: int) returns (res: Result<Matrix>)
      ensures InBounds(row, col) ==> res.Ok? && fresh(res.value) && fresh(res.value.data) && res.value.Value() == Minor(Value(), row, col)
      ensures !InBounds(row, col) ==> res == Err(OutOfBounds)
    {
      if !InBounds(row, col) {
        return Err(OutOfBounds);
      }
      var m := new Matrix.Of(Minor(Value(), row, col), Rows() - 1, Cols() - 1);
      res := Ok(m);
    }

    /**
     * Exchanges rows r1 and r2 in place and returns this matrix. A swap of two
     * different rows adds one to the swap counter; whether a row swapped with
     * itself is counted is left open.
     */
    method SwapRows(r1: int, r2: int) returns (res: Result<Matrix>)
      modifies this, data
      ensures 0 <= r1 < Rows() && 0 <= r2 < Rows() ==>
        res == Ok(this) && Value() == LinAlg.SwapRows(old(Value()), r1, r2)
        && (r1 != r2 ==> swapCount == old(swapCount) + 1)
        && (r1 == r2 ==> swapCount == old(swapCount) || swapCount == old(swapCount) + 1)
      ensures !(0 <= r1 < Rows() && 0 <= r2 < Rows()) ==>
        res == Err(OutOfBounds) && Value() == old(Value()) && swapCount == old(swapCount)
    {
      if !(0 <= r1 < Rows() && 0 <= r2 < Rows()) {
        return Err(OutOfBounds);
      }
      ghost var a := Value();
      var c := 0;
      while c < Cols()
        invariant 0 <= c <= Cols() && swapCount == old(swapCount)
        invariant forall r, k :: 0 <= r < Rows() && 0 <= k < Cols() ==>
          data[r, k] == if k < c then LinAlg.SwapRows(a, r1, r2)[r][k] else a[r][k]
      {
        data[r1, c], data[r2, c] := data[r2, c], data[r1, c];
        c := c + 1;
      }
      swapCount := swapCount + 1;
      MatEq(Value(), LinAlg.SwapRows(a, r1, r2), Rows(), Cols());
      res := Ok(this);
    }

    /** A zero matrix of the given shape; sizes below 1 are rejected. */
    method NewInstance(rows: int, cols: int) returns (res: Result<Matrix>)
      ensures rows >= 1 && cols >= 1 ==> res.Ok? && fresh(res.value) && fresh(res.value.data) && res.value.Value() == Zero(rows, cols)
      ensures !(rows >= 1 && cols >= 1) ==> res == Err(InvalidSize)
    {
      if rows < 1 || cols < 1 {
        return Err(InvalidSize);
      }
      var m := new Matrix(rows, cols);
      res := Ok(m);
    }

    /** A new matrix shaped like this one with ones on the diagonal and zeros elsewhere. */
    method Identity() returns (res: Matrix)
      ensures fresh(res) && fresh(res.data) && res.Rows() == Rows() && res.Cols() == Cols()
      ensures res.Value() == LinAlg.Identity(Rows(), Cols()) && res.swapCount == 0
    {
      res := new Matrix.Of(LinAlg.Identity(Rows(), Cols()), Rows(), Cols());
    }
  }
}
