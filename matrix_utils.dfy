/**
 * Forward and backward substitution, LU and LUP decomposition in place, and
 * the determinant from an LUP decomposition.
 */
module MatrixUtils {
  import opened LinAlg
  import opened Outcomes
  import opened Matrices
  import opened Views
  import opened Factorization

  /** Column j of m as an n-by-1 matrix. */
  function Column(m: Mat, j: nat): (v: Mat)
    requires forall i :: 0 <= i < |m| ==> j < |m[i]|
    ensures IsMat(v, |m|, 1)
  {
    seq(|m|, i requires 0 <= i < |m| => [m[i][j]])
  }

  /** The pivot threshold below which LUP decomposition gives up. */
  const Epsilon: real := 1.0 / 1000000000.0

  // ---------------------------------------------------------------------
  // Substitution

  /** Row r of a unit lower triangle times b: the strictly lower part plus b's own entry. */
  lemma UnitLowerRow(m: Mat, b: Mat, r: nat)
    requires IsSquare(m) && r < |m| && IsMat(b, |m|, 1)
    ensures IsSquare(UnitLower(m))
    ensures Span(UnitLower(m), b, r, 0, 0, |m|) == Span(UnitLower(m), b, r, 0, 0, r) + b[r][0]
  {
    var l := UnitLower(m);
    SpanSplit(l, b, r, 0, 0, r, |m|);
    SpanSplit(l, b, r, 0, r, r + 1, |m|);
    SpanZero(l, b, r, 0, r + 1, |m|);
  }

  /** Row r of an upper triangle times y: only the terms from the diagonal on. */
  lemma UpperRow(m: Mat, y: Mat, r: nat)
    requires IsSquare(m) && r < |m| && IsMat(y, |m|, 1)
    ensures IsSquare(Upper(m))
    ensures Span(Upper(m), y, r, 0, 0, |m|) == Span(Upper(m), y, r, 0, r, |m|)
  {
    var u := Upper(m);
    SpanSplit(u, y, r, 0, 0, r, |m|);
    SpanZero(u, y, r, 0, 0, r);
  }

  /** Column 0 of b holds the entries of the n-by-1 matrix x. */
  ghost predicate ColumnIs(b: Matrix, x: Mat)
    reads b.data
  {
    b.Cols() > 0 && IsMat(x, b.Rows(), 1) && forall r :: 0 <= r < b.Rows() ==> b.data[r, 0] == x[r][0]
  }

  /** Rows lo .. hi-1 are settled: b0's entry is x's entry plus row r of the strictly lower part applied to x. */
  ghost predicate SolvedRows(lv: Mat, b0: Mat, x: Mat, n: nat, lo: nat, hi: nat)
    requires IsMat(lv, n, n) && IsMat(b0, n, 1) && IsMat(x, n, 1)
  {
    forall r {:trigger b0[r]} :: lo <= r < hi && r < n ==> b0[r][0] == x[r][0] + Span(lv, x, r, 0, 0, r)
  }

  /** Rows lo .. hi-1 have had the multipliers of the first m columns applied. */
  ghost predicate PendingRows(lv: Mat, b0: Mat, x: Mat, n: nat, lo: nat, hi: nat, m: nat)
    requires IsMat(lv, n, n) && IsMat(b0, n, 1) && IsMat(x, n, 1) && m <= n
  {
    forall r {:trigger b0[r]} :: lo <= r < hi && r < n ==> b0[r][0] == x[r][0] + Span(lv, x, r, 0, 0, m)
  }

  /** Rows 0 .. i are solved and the rows below have had the first i columns' multipliers applied. */
  ghost predicate ForwardDone(lv: Mat, b0: Mat, x: Mat, n: nat, i: nat)
    requires IsMat(lv, n, n) && IsMat(b0, n, 1) && IsMat(x, n, 1) && i <= n
  {
    SolvedRows(lv, b0, x, n, 0, i + 1) && PendingRows(lv, b0, x, n, i + 1, n, i)
  }

  /** Eliminating entry j with the multiplier of column i moves row j from i applied columns to i + 1. */
  lemma ForwardUpdate(lv: Mat, b0: Mat, x: Mat, n: nat, i: nat, j: nat)
    requires IsMat(lv, n, n) && IsMat(b0, n, 1) && IsMat(x, n, 1) && i < j < n
    requires SolvedRows(lv, b0, x, n, 0, i + 1)
    requires PendingRows(lv, b0, x, n, i + 1, j, i + 1) && PendingRows(lv, b0, x, n, j, n, i)
    ensures var x2 := x[j := [x[j][0] - Times(lv[j][i], x[i][0])]];
      IsMat(x2, n, 1) && SolvedRows(lv, b0, x2, n, 0, i + 1)
      && PendingRows(lv, b0, x2, n, i + 1, j + 1, i + 1) && PendingRows(lv, b0, x2, n, j + 1, n, i)
  {
    var x2 := x[j := [x[j][0] - Times(lv[j][i], x[i][0])]];
    assert IsMat(x2, n, 1);
    assert SolvedRows(lv, b0, x2, n, 0, i + 1) by {
      forall r | 0 <= r <= i
        ensures b0[r][0] == x2[r][0] + Span(lv, x2, r, 0, 0, r)
      {
        SpanCongruent(lv, x2, r, lv, x, r, 0, 0, r);
      }
    }
    assert PendingRows(lv, b0, x2, n, i + 1, j, i + 1) by {
      forall r | i < r < j
        ensures b0[r][0] == x2[r][0] + Span(lv, x2, r, 0, 0, i + 1)
      {
        SpanCongruent(lv, x2, r, lv, x, r, 0, 0, i + 1);
      }
    }
    assert PendingRows(lv, b0, x2, n, j + 1, n, i) by {
      forall r | j < r < n
        ensures b0[r][0] == x2[r][0] + Span(lv, x2, r, 0, 0, i)
      {
        SpanCongruent(lv, x2, r, lv, x, r, 0, 0, i);
      }
    }
    assert b0[j][0] == x2[j][0] + Span(lv, x2, j, 0, 0, i + 1) by {
      SpanCongruent(lv, x2, j, lv, x, j, 0, 0, i);
      assert x2[i] == x[i];
      assert Span(lv, x2, j, 0, 0, i + 1) == Span(lv, x2, j, 0, 0, i) + Times(lv[j][i], x2[i][0]);
    }
  }

  /** When every row is settled, the unit lower triangle times x gives back b0. */
  lemma ForwardSolved(m: Mat, b0: Mat, x: Mat)
    requires IsSquare(m) && IsMat(b0, |m|, 1) && IsMat(x, |m|, 1)
    requires IsSquare(UnitLower(m)) && SolvedRows(UnitLower(m), b0, x, |m|, 0, |m|)
    ensures Mul(UnitLower(m), x, |m|, |m|, 1) == b0
  {
    var n := |m|;
    var prod := Mul(UnitLower(m), x, n, n, 1);
    forall r, c | 0 <= r < n && 0 <= c < 1
      ensures prod[r][c] == b0[r][c]
    {
      UnitLowerRow(m, x, r);
    }
    MatEq(prod, b0, n, 1);
  }

  /** Step i of forward substitution: subtract multiples of entry i from every entry below it. */
  method ForwardStep(L: LUMatrixView, b: Matrix, i: nat, ghost lv: Mat, ghost b0: Mat, ghost x: Mat)
    returns (ghost x2: Mat)
    requires b.data != L.matrix.data && L.IsSquareMatrix() && b.Rows() == L.Rows() && i + 1 < L.Rows()
    requires IsMat(lv, b.Rows(), b.Rows()) && IsMat(b0, b.Rows(), 1) && ColumnIs(b, x)
    requires forall r :: i < r < L.Rows() ==> lv[r][i] == L.Entry(r, i)
    requires ForwardDone(lv, b0, x, b.Rows(), i)
    modifies b.data
    ensures ColumnIs(b, x2)
    ensures ForwardDone(lv, b0, x2, b.Rows(), i + 1)
    ensures forall r, c :: 0 <= r < b.Rows() && 1 <= c < b.Cols() ==> b.data[r, c] == old(b.data[r, c])
  {
    var n := b.Rows();
    x2 := x;
    var j := i + 1;
    while j < n
      invariant i + 1 <= j <= n
      invariant forall r :: i < r < n ==> lv[r][i] == L.Entry(r, i)
      invariant ColumnIs(b, x2)
      invariant forall r, c :: 0 <= r < n && 1 <= c < b.Cols() ==> b.data[r, c] == old(b.data[r, c])
      invariant SolvedRows(lv, b0, x2, n, 0, i + 1)
      invariant PendingRows(lv, b0, x2, n, i + 1, j, i + 1) && PendingRows(lv, b0, x2, n, j, n, i)
    {
      var lji := L.Get(j, i);
      ForwardUpdate(lv, b0, x2, n, i, j);
      b.data[j, 0] := b.data[j, 0] - Times(lji.value, b.data[i, 0]);
      x2 := x2[j := [x2[j][0] - Times(lv[j][i], x2[i][0])]];
      j := j + 1;
    }
  }

  /** Before the first step, only row 0 is solved and no multiplier has been applied. */
  lemma ForwardStart(lv: Mat, b0: Mat, n: nat)
    requires IsMat(lv, n, n) && IsMat(b0, n, 1)
    ensures ForwardDone(lv, b0, b0, n, 0)
  {
    forall r | 0 <= r < n
      ensures Span(lv, b0, r, 0, 0, 0) == 0.0
    {
    }
  }

  /** Column i of the L view's value below the diagonal is what the view shows there. */
  lemma LowerColumnEntries(L: LUMatrixView, i: nat)
    requires L.IsSquareMatrix() && i < L.Rows()
    ensures forall r :: i < r < L.Rows() ==> UnitLower(L.Value())[r][i] == L.Entry(r, i)
  {
    forall r | i < r < L.Rows()
      ensures UnitLower(L.Value())[r][i] == L.Entry(r, i)
    {
      ValueEntry(L, r, i);
    }
  }

  /** The substitution loop of fs: every row of column 0 ends solved. */
  method ForwardSweep(L: LUMatrixView, b: Matrix, ghost lv: Mat, ghost b0: Mat) returns (ghost x: Mat)
    requires b.data != L.matrix.data && L.IsSquareMatrix() && b.Rows() == L.Rows() && b.Cols() > 0
    requires lv == UnitLower(L.Value()) && b0 == Column(b.Value(), 0)
    modifies b.data
    ensures ColumnIs(b, x)
    ensures SolvedRows(lv, b0, x, b.Rows(), 0, b.Rows())
    ensures forall r, c :: 0 <= r < b.Rows() && 1 <= c < b.Cols() ==> b.data[r, c] == old(b.data[r, c])
  {
    var n := b.Rows();
    x := b0;
    ForwardStart(lv, b0, n);
    var i := 0;
    while i + 1 < n
      invariant i == 0 || i < n
      invariant ColumnIs(b, x)
      invariant ForwardDone(lv, b0, x, n, i)
      invariant forall r, c :: 0 <= r < n && 1 <= c < b.Cols() ==> b.data[r, c] == old(b.data[r, c])
    {
      LowerColumnEntries(L, i);
      x := ForwardStep(L, b, i, lv, b0, x);
      i := i + 1;
    }
  }

  /**
   * Forward substitution in place: afterwards column 0 of b solves L x = b
   * for the unit lower triangle of L. The other columns of b are not touched.
   */
  method Fs(L: LUMatrixView, b: Matrix) returns (res: Result<Matrix>)
    requires b.data != L.matrix.data
    modifies b.data
    ensures !L.IsSquareMatrix() ==> res == Err(NotSquare)
    ensures L.IsSquareMatrix() && b.Rows() != L.Rows() ==> res == Err(DimensionMismatch)
    ensures L.IsSquareMatrix() && b.Rows() == L.Rows() && L.Rows() > 1 && b.Cols() == 0 ==> res == Err(OutOfBounds)
    ensures L.IsSquareMatrix() && b.Rows() == L.Rows() && (L.Rows() <= 1 || b.Cols() > 0) ==> res == Ok(b)
    ensures res.Err? ==> b.Value() == old(b.Value())
    ensures res.Ok? && b.Cols() > 0 ==>
      Mul(UnitLower(L.Value()), Column(b.Value(), 0), L.Rows(), L.Rows(), 1) == Column(old(b.Value()), 0)
    ensures forall r, c :: 0 <= r < b.Rows() && 1 <= c < b.Cols() ==> b.Value()[r][c] == old(b.Value())[r][c]
  {
    if !L.IsSquareMatrix() {
      return Err(NotSquare);
    }
    if b.Rows() != L.Rows() {
      return Err(DimensionMismatch);
    }
    var n := L.Rows();
    if n > 1 && b.Cols() == 0 {
      return Err(OutOfBounds);
    }
    if b.Cols() == 0 {
      return Ok(b);
    }
    ghost var b0 := Column(b.Value(), 0);
    ghost var x := ForwardSweep(L, b, UnitLower(L.Value()), b0);
    MatEq(Column(b.Value(), 0), x, n, 1);
    ForwardSolved(L.Value(), b0, x);
    res := Ok(b);
  }

  /** Rows after i are solved: row r of the upper triangle times x gives y0's entry. */
  ghost predicate BackwardDone(uv: Mat, y0: Mat, x: Mat, n: nat, i: int)
    requires IsMat(uv, n, n) && IsMat(y0, n, 1) && IsMat(x, n, 1) && -1 <= i < n
  {
    (forall r {:trigger y0[r]} :: 0 <= r <= i ==> x[r][0] == y0[r][0])
    && forall r {:trigger y0[r]} :: i < r < n ==> Span(uv, x, r, 0, r, n) == y0[r][0]
  }

  lemma Cancel(a: real, d: real)
    requires d != 0.0
    ensures Times(d, a / d) == a
  {
  }

  /** Writing the solved entry v into row i extends the solved rows down to i. */
  lemma BackwardUpdate(uv: Mat, y0: Mat, x: Mat, n: nat, i: nat, v: real)
    requires IsMat(uv, n, n) && IsMat(y0, n, 1) && IsMat(x, n, 1) && i < n
    requires BackwardDone(uv, y0, x, n, i)
    requires Times(uv[i][i], v) == y0[i][0] - Span(uv, x, i, 0, i + 1, n)
    ensures IsMat(x[i := [v]], n, 1) && BackwardDone(uv, y0, x[i := [v]], n, i - 1)
  {
    var x2 := x[i := [v]];
    assert IsMat(x2, n, 1);
    assert Span(uv, x2, i, 0, i, n) == y0[i][0] by {
      SpanCongruent(uv, x2, i, uv, x, i, 0, i + 1, n);
      SpanSplit(uv, x2, i, 0, i, i + 1, n);
      assert Span(uv, x2, i, 0, i, i + 1) == Times(uv[i][i], v);
    }
    assert forall r :: i < r < n ==> Span(uv, x2, r, 0, r, n) == y0[r][0] by {
      forall r | i < r < n
        ensures Span(uv, x2, r, 0, r, n) == y0[r][0]
      {
        SpanCongruent(uv, x2, r, uv, x, r, 0, r, n);
      }
    }
    assert forall r :: 0 <= r < i ==> x2[r][0] == y0[r][0];
  }

  /** Step i of backward substitution: subtract the solved entries after i, then divide by the diagonal. */
  method BackwardStep(U: LUMatrixView, y: Matrix, i: nat, ghost uv: Mat, ghost y0: Mat, ghost x: Mat)
    returns (ghost x2: Mat)
    requires y.data != U.matrix.data && U.IsSquareMatrix() && y.Rows() == U.Rows() && i < U.Rows()
    requires IsMat(uv, y.Rows(), y.Rows()) && IsMat(y0, y.Rows(), 1) && ColumnIs(y, x)
    requires forall c :: i <= c < U.Rows() ==> uv[i][c] == U.Entry(i, c)
    requires uv[i][i] != 0.0
    requires BackwardDone(uv, y0, x, y.Rows(), i)
    modifies y.data
    ensures ColumnIs(y, x2) && BackwardDone(uv, y0, x2, y.Rows(), i - 1)
    ensures forall r, c :: 0 <= r < y.Rows() && 1 <= c < y.Cols() ==> y.data[r, c] == old(y.data[r, c])
  {
    var n := y.Rows();
    var j := i + 1;
    while j < n
      invariant i + 1 <= j <= n
      invariant forall c :: i <= c < n ==> uv[i][c] == U.Entry(i, c)
      invariant forall r, c :: 0 <= r < n && 1 <= c < y.Cols() ==> y.data[r, c] == old(y.data[r, c])
      invariant forall r :: 0 <= r < n && r != i ==> y.data[r, 0] == x[r][0]
      invariant y.data[i, 0] == y0[i][0] - Span(uv, x, i, 0, i + 1, j)
    {
      var uij := U.Get(i, j);
      ghost var u := uv[i][j];
      assert uij.value == u;
      var yj := y.data[j, 0];
      assert yj == x[j][0];
      assert Span(uv, x, i, 0, i + 1, j + 1) == Span(uv, x, i, 0, i + 1, j) + Times(u, yj);
      y.data[i, 0] := y.data[i, 0] - Times(uij.value, yj);
      j := j + 1;
    }
    var uii := U.Get(i, i);
    assert uii.value == uv[i][i];
    ghost var v := y.data[i, 0];
    y.data[i, 0] := y.data[i, 0] / uii.value;
    Cancel(v, uii.value);
    BackwardUpdate(uv, y0, x, n, i, y.data[i, 0]);
    x2 := x[i := [y.data[i, 0]]];
  }

  /**
   * Backward substitution in place: afterwards column 0 of y solves U x = y
   * for the upper triangle of U. Each step divides by a diagonal entry of U,
   * which the caller must make nonzero.
   */
  method Bs(U: LUMatrixView, y: Matrix) returns (res: Result<Matrix>)
    requires y.data != U.matrix.data
    requires U.IsSquareMatrix() && y.Rows() == U.Rows() ==> forall k :: 0 <= k < U.Rows() ==> U.Value()[k][k] != 0.0
    modifies y.data
    ensures !U.IsSquareMatrix() ==> res == Err(NotSquare)
    ensures U.IsSquareMatrix() && y.Rows() != U.Rows() ==> res == Err(DimensionMismatch)
    ensures U.IsSquareMatrix() && y.Rows() == U.Rows() && U.Rows() > 0 && y.Cols() == 0 ==> res == Err(OutOfBounds)
    ensures U.IsSquareMatrix() && y.Rows() == U.Rows() && (U.Rows() == 0 || y.Cols() > 0) ==> res == Ok(y)
    ensures res.Err? ==> y.Value() == old(y.Value())
    ensures res.Ok? && y.Cols() > 0 ==>
      Mul(Upper(U.Value()), Column(y.Value(), 0), U.Rows(), U.Rows(), 1) == Column(old(y.Value()), 0)
    ensures forall r, c :: 0 <= r < y.Rows() && 1 <= c < y.Cols() ==> y.Value()[r][c] == old(y.Value())[r][c]
  {
    if !U.IsSquareMatrix() {
      return Err(NotSquare);
    }
    if y.Rows() != U.Rows() {
      return Err(DimensionMismatch);
    }
    var n := U.Rows();
    if n > 0 && y.Cols() == 0 {
      return Err(OutOfBounds);
    }
    if y.Cols() == 0 {
      return Ok(y);
    }
    ghost var uv := Upper(U.Value());
    ghost var y0 := Column(y.Value(), 0);
    ghost var x := y0;
    var i: int := n as int - 1;
    while i >= 0
      invariant -1 <= i < n
      invariant uv == Upper(U.Value())
      invariant forall k :: 0 <= k < n ==> U.Value()[k][k] != 0.0
      invariant ColumnIs(y, x) && BackwardDone(uv, y0, x, n, i)
      invariant forall r, c :: 0 <= r < n && 1 <= c < y.Cols() ==> y.data[r, c] == old(y.data[r, c])
    {
      forall c | i <= c < n
        ensures uv[i][c] == U.Entry(i, c)
      {
        ValueEntry(U, i, c);
      }
      x := BackwardStep(U, y, i, uv, y0, x);
      i := i - 1;
    }
    MatEq(Column(y.Value(), 0), x, n, 1);
    ghost var prod := Mul(uv, x, n, n, 1);
    forall r, c | 0 <= r < n && 0 <= c < 1
      ensures prod[r][c] == y0[r][c]
    {
      UpperRow(U.Value(), x, r);
    }
    MatEq(prod, y0, n, 1);
    res := Ok(y);
  }

  // ---------------------------------------------------------------------
  // Pivot selection

  /**
   * The row the pivot scan of step i settles on when it starts at row `first`
   * with row i as its initial candidate: the first scanned row whose entry in
   * column i is strictly largest in magnitude, or row i when none beats it.
   */
  predicate IsScanChoice(s: Mat, i: nat, first: nat, p: nat)
    requires IsSquare(s) && i < |s|
  {
    p < |s| && (p == i || first <= p)
    && (forall r :: first <= r < |s| ==> Abs(s[r][i]) <= Abs(s[p][i]))
    && Abs(s[i][i]) <= Abs(s[p][i])
    && (p != i ==> Abs(s[i][i]) < Abs(s[p][i]) && forall r :: first <= r < p ==> Abs(s[r][i]) < Abs(s[p][i]))
  }

  /** The scan's choice is determined by the column it scans. */
  lemma ScanChoiceUnique(s: Mat, i: nat, first: nat, p: nat, q: nat)
    requires IsSquare(s) && i < |s|
    requires IsScanChoice(s, i, first, p) && IsScanChoice(s, i, first, q)
    ensures p == q
  {
  }

  /** The pivot scan, starting at row `first`: the chosen row and its entry in column i. */
  method ScanPivot(A: Matrix, i: nat, first: nat) returns (p: nat, maxPivot: real)
    requires A.IsSquareMatrix() && i < A.Rows()
    ensures IsScanChoice(A.Value(), i, first, p) && maxPivot == A.Value()[p][i]
  {
    p := i;
    maxPivot := A.data[i, i];
    var j := first;
    while j < A.Rows()
      invariant first <= j
      invariant p < A.Rows() && (p == i || first <= p < j)
      invariant maxPivot == A.data[p, i]
      invariant Abs(A.data[i, i]) <= Abs(maxPivot)
      invariant forall r :: first <= r < j && r < A.Rows() ==> Abs(A.data[r, i]) <= Abs(maxPivot)
      invariant p != i ==> Abs(A.data[i, i]) < Abs(maxPivot) && forall r :: first <= r < p ==> Abs(A.data[r, i]) < Abs(maxPivot)
    {
      if Abs(A.data[j, i]) > Abs(maxPivot) {
        maxPivot := A.data[j, i];
        p := j;
      }
      j := j + 1;
    }
  }

  /**
   * The first row the scan of step t weighs besides row t itself: row 1 as
   * the decomposition is written, or row t when the scan is corrected to
   * look at unfinished rows only.
   */
  function ScanStart(t: nat, fromStep: bool): nat {
    if fromStep then t else 1
  }

  // ---------------------------------------------------------------------
  // Decomposition

  /** One elimination step in place: multipliers into column i, row i subtracted below. */
  method EliminateColumn(A: Matrix, i: nat)
    requires A.IsSquareMatrix() && i < A.Rows() && A.Value()[i][i] != 0.0
    modifies A.data
    ensures A.IsSquareMatrix() && A.Value() == Eliminate(old(A.Value()), i)
  {
    ghost var s := A.Value();
    ghost var e := Eliminate(s, i);
    var n := A.Rows();
    var j := i + 1;
    while j < n
      invariant i + 1 <= j <= n
      invariant forall r, c :: 0 <= r < n && 0 <= c < n ==> A.data[r, c] == if r < j then e[r][c] else s[r][c]
    {
      A.data[j, i] := A.data[j, i] / A.data[i, i];
      var k := i + 1;
      while k < n
        invariant i + 1 <= k <= n
        invariant forall r, c :: 0 <= r < n && 0 <= c < n ==>
          A.data[r, c] == if r < j || (r == j && (c == i || i < c < k)) then e[r][c] else s[r][c]
      {
        A.data[j, k] := A.data[j, k] - A.data[j, i] * A.data[i, k];
        k := k + 1;
      }
      j := j + 1;
    }
    MatEq(A.Value(), e, n, n);
  }

  /** The three results of a decomposition; p is present only for LUP. */
  datatype Decomposition = Decomposition(l: LUMatrixView, u: LUMatrixView, p: Option<Matrix>)

  /** How many steps moved a row other than the step's own. */
  function Moves(pivots: seq<nat>): nat
  {
    if |pivots| == 0 then 0
    else Moves(pivots[..|pivots| - 1]) + (if pivots[|pivots| - 1] != |pivots| - 1 then 1 else 0)
  }

  /** A swap of rows p and i raised a counter from `before` to `after`: by one for distinct rows, by at most one otherwise. */
  predicate Counted(before: nat, after: nat, p: nat, i: nat) {
    before + (if p != i then 1 else 0) <= after <= before + 1
  }

  /**
   * Step t of the decomposition, from the working matrix s to s2. With
   * pivoting, the scan settles on row p, whose entry in column t is above
   * the threshold; rows p and t are exchanged and column t is eliminated.
   * Without pivoting, the diagonal entry is nonzero and column t is
   * eliminated where it stands.
   */
  ghost predicate Step(s: Mat, t: nat, p: nat, s2: Mat, useLup: bool, fromStep: bool)
  {
    IsSquare(s) && t < |s|
    && if useLup then
      IsScanChoice(s, t, ScanStart(t, fromStep), p) && Abs(s[p][t]) > Epsilon
      && s2 == Eliminate(SwapRows(s, p, t), t)
    else
      s[t][t] != 0.0 && s2 == Eliminate(s, t)
  }

  /** Step t cannot be taken: every entry the scan weighs is within the threshold, or, without pivoting, the diagonal entry is zero. */
  ghost predicate Stuck(s: Mat, t: nat, useLup: bool, fromStep: bool)
    requires IsSquare(s) && t < |s|
  {
    if useLup then
      Abs(s[t][t]) <= Epsilon && forall r :: ScanStart(t, fromStep) <= r < |s| ==> Abs(s[r][t]) <= Epsilon
    else
      s[t][t] == 0.0
  }

  /** A stuck step has no successor, so a run that stops there could not have gone on. */
  lemma StuckIsFinal(s: Mat, t: nat, useLup: bool, fromStep: bool, p: nat, s2: Mat)
    requires IsSquare(s) && t < |s| && Stuck(s, t, useLup, fromStep)
    ensures !Step(s, t, p, s2, useLup, fromStep)
  {
    if useLup && IsScanChoice(s, t, ScanStart(t, fromStep), p) {
      assert p == t || ScanStart(t, fromStep) <= p;
    }
  }

  /** The row step t chose; without pivoting the step keeps its own row. */
  function PivotOf(pivots: seq<nat>, t: nat, useLup: bool): nat {
    if useLup && t < |pivots| then pivots[t] else t
  }

  /**
   * A run of the decomposition from a0: states[t] is the working matrix
   * before step t and each step is one Step, for at most n - 1 steps; with
   * pivoting, pivots[t] is the row step t chose.
   */
  ghost predicate IsRun(a0: Mat, states: seq<Mat>, pivots: seq<nat>, useLup: bool, fromStep: bool)
  {
    IsSquare(a0) && 1 <= |states| && states[0] == a0 && (|states| == 1 || |states| <= |a0|)
    && (if useLup then |pivots| == |states| - 1 else pivots == [])
    && (forall t :: 0 <= t < |pivots| ==> pivots[t] < |a0|)
    && (forall t :: 0 <= t < |states| ==> IsMat(states[t], |a0|, |a0|))
    && forall t :: 0 <= t < |states| - 1 ==> Step(states[t], t, PivotOf(pivots, t, useLup), states[t + 1], useLup, fromStep)
  }

  /** A run extended by one more step is a run. */
  lemma RunExtend(a0: Mat, states: seq<Mat>, pivots: seq<nat>, useLup: bool, fromStep: bool, p: nat, s2: Mat)
    requires IsRun(a0, states, pivots, useLup, fromStep) && |states| < |a0|
    requires Step(states[|states| - 1], |states| - 1, p, s2, useLup, fromStep)
    ensures IsRun(a0, states + [s2], if useLup then pivots + [p] else pivots, useLup, fromStep)
  {
    var st := states + [s2];
    var pv := if useLup then pivots + [p] else pivots;
    forall t | 0 <= t < |st| - 1
      ensures Step(st[t], t, PivotOf(pv, t, useLup), st[t + 1], useLup, fromStep)
    {
      if t < |states| - 1 {
        assert st[t] == states[t] && st[t + 1] == states[t + 1];
        assert PivotOf(pv, t, useLup) == PivotOf(pivots, t, useLup);
      } else if useLup {
        assert PivotOf(pv, t, useLup) == p;
      } else {
        assert st[t][t][t] != 0.0 && st[t + 1] == Eliminate(st[t], t);
      }
    }
  }

  /** The row order after the exchanges of a run: step t swaps positions pivots[t] and t, starting from the identity. */
  function RowOrder(pivots: seq<nat>, n: nat): (perm: seq<nat>)
    requires |pivots| <= n && forall t :: 0 <= t < |pivots| ==> pivots[t] < n
    ensures |perm| == n
  {
    if |pivots| == 0 then Iota(n)
    else SwapRows(RowOrder(pivots[..|pivots| - 1], n), pivots[|pivots| - 1], |pivots| - 1)
  }

  /** One more pivot adds one more exchange to the row order, and counts as a move when it is not the step's own row. */
  lemma PivotsExtend(pivots: seq<nat>, p: nat, n: nat)
    requires |pivots| < n && p < n && forall t :: 0 <= t < |pivots| ==> pivots[t] < n
    ensures RowOrder(pivots + [p], n) == SwapRows(RowOrder(pivots, n), p, |pivots|)
    ensures Moves(pivots + [p]) == Moves(pivots) + (if p != |pivots| then 1 else 0)
  {
    assert (pivots + [p])[..|pivots|] == pivots;
  }

  /** The diagonal of the first k rows is nonzero, and above the threshold when pivoting. */
  ghost predicate PivotsUsable(s: Mat, k: nat, useLup: bool)
    requires IsSquare(s) && k <= |s|
  {
    forall t {:trigger s[t][t]} :: 0 <= t < k ==> s[t][t] != 0.0 && (useLup ==> Abs(s[t][t]) > Epsilon)
  }

  /** A swap of two rows at or below row k leaves the first k diagonal entries as they were. */
  lemma SwapKeepsUsable(s: Mat, k: nat, x: nat, y: nat, useLup: bool)
    requires IsSquare(s) && k <= x < |s| && k <= y < |s| && PivotsUsable(s, k, useLup)
    ensures IsSquare(SwapRows(s, x, y)) && PivotsUsable(SwapRows(s, x, y), k, useLup)
  {
    var w := SwapRows(s, x, y);
    forall t | 0 <= t < k
      ensures w[t][t] == s[t][t]
    {
      assert w[t] == s[t];
    }
  }

  /** Elimination on column i leaves rows 0 .. i, and so their diagonal entries, as they were. */
  lemma EliminateKeepsUsable(s: Mat, i: nat, useLup: bool)
    requires IsSquare(s) && i < |s| && s[i][i] != 0.0 && PivotsUsable(s, i + 1, useLup)
    ensures IsSquare(Eliminate(s, i)) && PivotsUsable(Eliminate(s, i), i + 1, useLup)
  {
    var e := Eliminate(s, i);
    forall t | 0 <= t <= i
      ensures e[t][t] == s[t][t]
    {
    }
  }

  /** After k steps on s, started from a0: the factorization invariant holds and the pivots used so far are usable. */
  ghost predicate Progress(s: Mat, a0: Mat, perm: seq<nat>, k: nat, useLup: bool)
  {
    IsSquare(s) && IsMat(a0, |s|, |s|) && k <= |s| && IsPermutation(perm, |s|)
    && Factors(s, a0, perm, k) && PivotsUsable(s, k, useLup)
  }

  /**
   * Along a run whose every pivot lies at or below its step, the working
   * matrix after k steps factors a0 in the row order of the first k pivots,
   * and the pivots used so far are usable.
   */
  lemma {:induction false} RunFactors(a0: Mat, states: seq<Mat>, pivots: seq<nat>, useLup: bool, fromStep: bool, k: nat)
    requires IsRun(a0, states, pivots, useLup, fromStep) && k < |states| && PivotsAtOrBelow(pivots)
    ensures Progress(states[k], a0, RowOrder(pivots[..Min(k, |pivots|)], |a0|), k, useLup)
  {
    var n := |a0|;
    if k == 0 {
      assert pivots[..Min(k, |pivots|)] == [];
      ReconInitial(a0);
      IotaIdentity(n);
    } else {
      var t := k - 1;
      RunFactors(a0, states, pivots, useLup, fromStep, t);
      var s := states[t];
      var perm := RowOrder(pivots[..Min(t, |pivots|)], n);
      assert Step(s, t, PivotOf(pivots, t, useLup), states[k], useLup, fromStep);
      if useLup {
        var p := pivots[t];
        assert pivots[..k][..t] == pivots[..t];
        assert RowOrder(pivots[..k], n) == SwapRows(perm, p, t);
        SwapFactors(s, a0, perm, t, p, t);
        SwapKeepsUsable(s, t, p, t, true);
        var w := SwapRows(s, p, t);
        assert PivotsUsable(w, t + 1, true) by {
          assert w[t] == s[p];
        }
        EliminateFactors(w, a0, SwapRows(perm, p, t), t);
        EliminateKeepsUsable(w, t, true);
      } else {
        EliminateFactors(s, a0, perm, t);
        EliminateKeepsUsable(s, t, false);
      }
    }
  }

  /** A run of all n - 1 steps whose pivots lie at or below their steps ends with L * U equal to P * a0. */
  lemma CompleteRunFactors(a0: Mat, states: seq<Mat>, pivots: seq<nat>, useLup: bool, fromStep: bool)
    requires IsRun(a0, states, pivots, useLup, fromStep) && |states| == |a0| && |a0| > 0 && PivotsAtOrBelow(pivots)
    ensures IsPermutation(RowOrder(pivots, |a0|), |a0|)
    ensures Mul(UnitLower(states[|a0| - 1]), Upper(states[|a0| - 1]), |a0|, |a0|, |a0|)
      == Mul(PermMatrix(RowOrder(pivots, |a0|), |a0|), a0, |a0|, |a0|, |a0|)
  {
    RunFactors(a0, states, pivots, useLup, fromStep, |a0| - 1);
    assert pivots[..Min(|a0| - 1, |pivots|)] == pivots;
    FactorsProduct(states[|a0| - 1], a0, RowOrder(pivots, |a0|));
  }

  /**
   * With the corrected scan, which starts at the step's own row, every
   * pivot lies at or below its step, so a complete run always ends with
   * L * U equal to P * a0.
   */
  lemma CorrectedRunFactors(a0: Mat, states: seq<Mat>, pivots: seq<nat>, useLup: bool)
    requires IsRun(a0, states, pivots, useLup, true)
    ensures PivotsAtOrBelow(pivots)
    ensures |states| == |a0| && |a0| > 0 ==>
      IsPermutation(RowOrder(pivots, |a0|), |a0|)
      && Mul(UnitLower(states[|a0| - 1]), Upper(states[|a0| - 1]), |a0|, |a0|, |a0|)
         == Mul(PermMatrix(RowOrder(pivots, |a0|), |a0|), a0, |a0|, |a0|, |a0|)
  {
    forall t | 0 <= t < |pivots|
      ensures pivots[t] >= t
    {
      assert Step(states[t], t, PivotOf(pivots, t, useLup), states[t + 1], useLup, true);
    }
    if |states| == |a0| && |a0| > 0 {
      CompleteRunFactors(a0, states, pivots, useLup, true);
    }
  }

  /**
   * The scan as written weighs rows 1 .. n-1 besides row t, which for steps
   * 0 and 1 are all unfinished; so on matrices of at most three rows, whose
   * runs have at most two steps, every pivot lies at or below its step.
   */
  lemma SmallRunsPivotBelow(a0: Mat, states: seq<Mat>, pivots: seq<nat>, useLup: bool)
    requires IsRun(a0, states, pivots, useLup, false) && |a0| <= 3
    ensures PivotsAtOrBelow(pivots)
  {
    forall t | 0 <= t < |pivots|
      ensures pivots[t] >= t
    {
      assert Step(states[t], t, PivotOf(pivots, t, useLup), states[t + 1], useLup, false);
    }
  }

  /**
   * The pivoting part of step i. The scan starts at row 1 whatever the step,
   * with row i as its first candidate. When the chosen entry is within the
   * threshold of zero the step gives up with nothing changed; otherwise rows
   * p and i are exchanged in both A and P, even when p == i.
   */
  method PivotStep(A: Matrix, P: Matrix, i: nat, ghost perm: seq<nat>)
    returns (found: bool, p: nat, ghost perm2: seq<nat>)
    requires A.IsSquareMatrix() && i < A.Rows() && A.data != P.data
    requires P.Rows() == A.Rows() && P.Cols() == A.Rows()
    requires IsPermutation(perm, A.Rows()) && P.Value() == PermMatrix(perm, A.Rows())
    modifies A, A.data, P, P.data
    ensures IsScanChoice(old(A.Value()), i, 1, p)
    ensures found <==> Abs(old(A.Value())[p][i]) > Epsilon
    ensures !found ==>
      A.Value() == old(A.Value()) && A.swapCount == old(A.swapCount)
      && P.Value() == old(P.Value()) && P.swapCount == old(P.swapCount) && perm2 == perm
    ensures found ==>
      A.Value() == SwapRows(old(A.Value()), p, i)
      && perm2 == SwapRows(perm, p, i) && IsPermutation(perm2, A.Rows()) && P.Value() == PermMatrix(perm2, A.Rows())
      && Counted(old(A.swapCount), A.swapCount, p, i) && Counted(old(P.swapCount), P.swapCount, p, i)
  {
    var maxPivot;
    p, maxPivot := ScanPivot(A, i, 1);
    perm2 := perm;
    if Abs(maxPivot) <= Epsilon {
      return false, p, perm2;
    }
    SwapPermutation(perm, A.Rows(), p, i);
    var _ := A.SwapRows(p, i);
    var _ := P.SwapRows(p, i);
    perm2 := SwapRows(perm, p, i);
    found := true;
  }

  /**
   * The elimination part of step i: plain LU gives up on a zero pivot with
   * nothing changed; otherwise column i is eliminated.
   */
  method EliminationStep(A: Matrix, i: nat, useLup: bool) returns (ok: bool)
    requires A.IsSquareMatrix() && i < A.Rows()
    requires useLup ==> Abs(A.Value()[i][i]) > Epsilon
    modifies A.data
    ensures ok <==> old(A.Value())[i][i] != 0.0
    ensures !ok ==> !useLup && A.Value() == old(A.Value())
    ensures ok ==> A.Value() == Eliminate(old(A.Value()), i)
  {
    if !useLup && A.data[i, i] == 0.0 {
      return false;
    }
    assert A.Value()[i][i] != 0.0;
    EliminateColumn(A, i);
    ok := true;
  }

  /** P is an n-by-n permutation matrix of perm and has been swapped between Moves(pivots) and |pivots| times. */
  ghost predicate Tracks(P: Matrix, perm: seq<nat>, pivots: seq<nat>, n: nat)
    reads P, P.data
  {
    P.Rows() == n && P.Cols() == n && IsPermutation(perm, n) && P.Value() == PermMatrix(perm, n)
    && Moves(pivots) <= P.swapCount <= |pivots|
  }

  /**
   * Step i of the decomposition: pivoting when P is present, then
   * elimination of column i. It either takes one Step, or finds step i
   * stuck and changes nothing.
   */
  method DecompositionStep(A: Matrix, P: Matrix?, useLup: bool, i: nat, ghost perm: seq<nat>)
    returns (ok: bool, p: nat, ghost perm2: seq<nat>)
    requires A.IsSquareMatrix() && i + 1 < A.Rows() && (useLup <==> P != null)
    requires P != null ==>
      P.data != A.data && P.Rows() == A.Rows() && P.Cols() == A.Rows()
      && IsPermutation(perm, A.Rows()) && P.Value() == PermMatrix(perm, A.Rows())
    modifies A, A.data, if P == null then {} else {P, P.data}
    ensures ok ==> Step(old(A.Value()), i, p, A.Value(), useLup, false)
    ensures !ok ==> A.Value() == old(A.Value()) && A.swapCount == old(A.swapCount) && Stuck(A.Value(), i, useLup, false)
    ensures P != null ==>
      perm2 == (if ok then SwapRows(perm, p, i) else perm)
      && IsPermutation(perm2, A.Rows()) && P.Value() == PermMatrix(perm2, A.Rows())
    ensures P != null && ok ==> Counted(old(A.swapCount), A.swapCount, p, i) && Counted(old(P.swapCount), P.swapCount, p, i)
    ensures P != null && !ok ==> P.swapCount == old(P.swapCount)
    ensures P == null ==> A.swapCount == old(A.swapCount)
  {
    perm2, p := perm, i;
    if useLup {
      var found;
      found, p, perm2 := PivotStep(A, P, i, perm);
      if !found {
        return false, p, perm2;
      }
    }
    ok := EliminationStep(A, i, useLup);
  }

  /** A counter within its bounds for the pivots so far stays within them after one more counted exchange. */
  lemma CountExtends(c0: nat, before: nat, after: nat, pivots: seq<nat>, p: nat)
    requires c0 + Moves(pivots) <= before <= c0 + |pivots| && Counted(before, after, p, |pivots|)
    ensures c0 + Moves(pivots + [p]) <= after <= c0 + |pivots + [p]|
  {
    assert (pivots + [p])[..|pivots|] == pivots;
  }

  /**
   * A step taken after a run extends it, with one more pivot when pivoting;
   * the row order gains the step's exchange and both counters stay within
   * their bounds.
   */
  lemma Advance(a0: Mat, states: seq<Mat>, pivots: seq<nat>, useLup: bool, p: nat, s2: Mat,
                c0: nat, countA: nat, newA: nat, countP: nat, newP: nat)
    requires IsRun(a0, states, pivots, useLup, false) && |states| < |a0|
    requires Step(states[|states| - 1], |states| - 1, p, s2, useLup, false)
    requires c0 + Moves(pivots) <= countA <= c0 + |pivots|
    requires useLup ==> Moves(pivots) <= countP <= |pivots|
    requires useLup ==> Counted(countA, newA, p, |states| - 1) && Counted(countP, newP, p, |states| - 1)
    requires !useLup ==> newA == countA
    ensures IsRun(a0, states + [s2], if useLup then pivots + [p] else pivots, useLup, false)
    ensures c0 + Moves(if useLup then pivots + [p] else pivots) <= newA <= c0 + |if useLup then pivots + [p] else pivots|
    ensures useLup ==>
      Moves(pivots + [p]) <= newP <= |pivots + [p]|
      && RowOrder(pivots + [p], |a0|) == SwapRows(RowOrder(pivots, |a0|), p, |pivots|)
  {
    RunExtend(a0, states, pivots, useLup, false, p, s2);
    if useLup {
      PivotsExtend(pivots, p, |a0|);
      CountExtends(c0, countA, newA, pivots, p);
      CountExtends(0, countP, newP, pivots, p);
    }
  }

  /**
   * Step i of the elimination loop, extending the run taken so far. When
   * the step is taken the run grows by the new state (and by its pivot when
   * pivoting); when it is stuck nothing changes.
   */
  method RunStep(A: Matrix, P: Matrix?, useLup: bool, i: nat, ghost a0: Mat, ghost states: seq<Mat>, ghost pivots: seq<nat>, ghost perm: seq<nat>, ghost c0: nat)
    returns (done: bool, ghost states2: seq<Mat>, ghost pivots2: seq<nat>, ghost perm2: seq<nat>)
    requires A.IsSquareMatrix() && (useLup <==> P != null) && i + 1 < A.Rows()
    requires |states| == i + 1 && IsRun(a0, states, pivots, useLup, false) && A.Value() == states[i]
    requires P != null ==> P.data != A.data && Tracks(P, perm, pivots, A.Rows()) && perm == RowOrder(pivots, A.Rows())
    requires c0 + Moves(pivots) <= A.swapCount <= c0 + |pivots|
    modifies A, A.data, if P == null then {} else {P, P.data}
    ensures IsRun(a0, states2, pivots2, useLup, false) && A.Value() == states2[|states2| - 1]
    ensures P != null ==> Tracks(P, perm2, pivots2, A.Rows()) && perm2 == RowOrder(pivots2, A.Rows())
    ensures c0 + Moves(pivots2) <= A.swapCount <= c0 + |pivots2|
    ensures done ==> |states2| == i + 2
    ensures !done ==> |states2| < A.Rows() && Stuck(states2[|states2| - 1], |states2| - 1, useLup, false)
  {
    ghost var countA, countP := A.swapCount, if P == null then 0 else P.swapCount;
    var p;
    done, p, perm2 := DecompositionStep(A, P, useLup, i, perm);
    if !done {
      assert |states| - 1 == i;
      return done, states, pivots, perm;
    }
    states2, pivots2 := states + [A.Value()], if useLup then pivots + [p] else pivots;
    Advance(a0, states, pivots, useLup, p, A.Value(), c0, countA, A.swapCount, countP, if P == null then 0 else P.swapCount);
  }

  /**
   * The elimination loop of the decomposition, steps 0 .. n-2, with row
   * pivoting into P when it is present. The steps it takes form a run of
   * the scan as written; it stops at the first stuck step.
   */
  method Doolittle(A: Matrix, P: Matrix?, useLup: bool)
    returns (ok: bool, ghost states: seq<Mat>, ghost pivots: seq<nat>)
    requires A.IsSquareMatrix() && (useLup <==> P != null)
    requires P != null ==> P.data != A.data && Tracks(P, Iota(A.Rows()), [], A.Rows())
    modifies A, A.data, if P == null then {} else {P, P.data}
    ensures IsRun(old(A.Value()), states, pivots, useLup, false) && A.Value() == states[|states| - 1]
    ensures P != null ==> Tracks(P, RowOrder(pivots, A.Rows()), pivots, A.Rows())
    ensures old(A.swapCount) + Moves(pivots) <= A.swapCount <= old(A.swapCount) + |pivots|
    ensures ok ==> |states| == (if A.Rows() == 0 then 1 else A.Rows())
    ensures !ok ==> |states| < A.Rows() && Stuck(states[|states| - 1], |states| - 1, useLup, false)
  {
    var n := A.Rows();
    ghost var a0 := A.Value();
    ghost var perm := Iota(n);
    states, pivots := [a0], [];
    var i := 0;
    while i + 1 < n
      invariant i == 0 || i < n
      invariant A.IsSquareMatrix() && A.Rows() == n
      invariant |states| == i + 1 && IsRun(a0, states, pivots, useLup, false) && A.Value() == states[i]
      invariant P != null ==> P.data != A.data && Tracks(P, perm, pivots, n) && perm == RowOrder(pivots, n)
      invariant old(A.swapCount) + Moves(pivots) <= A.swapCount <= old(A.swapCount) + |pivots|
    {
      var done;
      done, states, pivots, perm := RunStep(A, P, useLup, i, a0, states, pivots, perm, old(A.swapCount));
      if !done {
        return false, states, pivots;
      }
      i := i + 1;
    }
    ok := true;
  }

  /** When all n-1 steps have run, the two readings of s multiply to P * a0, and to a0 itself without pivoting. */
  lemma Assembled(s: Mat, a0: Mat, perm: seq<nat>, useLup: bool)
    requires Progress(s, a0, perm, if |s| == 0 then 0 else |s| - 1, useLup)
    requires !useLup ==> perm == Iota(|s|)
    ensures IsSquare(UnitLower(s)) && IsSquare(Upper(s))
    ensures Mul(UnitLower(s), Upper(s), |s|, |s|, |s|) == Mul(PermMatrix(perm, |s|), a0, |s|, |s|, |s|)
  {
    if |s| > 0 {
      FactorsProduct(s, a0, perm);
    }
  }

  /** Without pivoting the row order is the identity, so L * U is the input itself. */
  lemma UnpivotedProduct(l: Mat, u: Mat, a0: Mat, n: nat)
    requires IsMat(l, n, n) && IsMat(u, n, n) && IsMat(a0, n, n)
    requires Mul(l, u, n, n, n) == Mul(PermMatrix(Iota(n), n), a0, n, n, n)
    ensures Mul(l, u, n, n, n) == a0
  {
    IotaIdentity(n);
    MulIdentity(a0, n, n);
  }

  /**
   * LU (useLup false) or LUP (useLup true) decomposition of A in place, with
   * the pivot scan as written. The steps taken form a run from the input;
   * a failure names the stuck step, SingularPivot when pivoting and
   * DivisionByZero without. On success L and U are views over A, and
   * whenever every pivot lies at or below its step (always without
   * pivoting, and always for at most three rows) L * U == P * A, where P is
   * the permutation matrix of the run's row order. The last diagonal entry
   * of U is never checked.
   */
  method LuDecomposition(A: Matrix, useLup: bool)
    returns (res: Result<Decomposition>, ghost states: seq<Mat>, ghost pivots: seq<nat>)
    modifies A, A.data
    ensures !A.IsSquareMatrix() ==> res == Err(NotSquare) && A.Value() == old(A.Value()) && A.swapCount == old(A.swapCount)
    ensures A.IsSquareMatrix() ==>
      IsRun(old(A.Value()), states, pivots, useLup, false) && A.Value() == states[|states| - 1]
    ensures A.IsSquareMatrix() && res.Err? ==>
      |states| < A.Rows() && Stuck(A.Value(), |states| - 1, useLup, false)
      && res == Err(if useLup then SingularPivot else DivisionByZero)
    ensures A.IsSquareMatrix() && useLup ==> old(A.swapCount) + Moves(pivots) <= A.swapCount <= old(A.swapCount) + |pivots|
    ensures res.Ok? ==>
      A.IsSquareMatrix() && |states| == (if A.Rows() == 0 then 1 else A.Rows())
      && fresh(res.value.l) && res.value.l.matrix == A && res.value.l.isL
      && fresh(res.value.u) && res.value.u.matrix == A && !res.value.u.isL
      && (useLup <==> res.value.p.Some?)
    ensures res.Ok? && useLup ==>
      var P := res.value.p.value;
      fresh(P) && fresh(P.data) && P.Value() == PermMatrix(RowOrder(pivots, A.Rows()), A.Rows())
      && Moves(pivots) <= P.swapCount <= |pivots|
      && old(A.swapCount) + Moves(pivots) <= A.swapCount <= old(A.swapCount) + |pivots|
    ensures res.Ok? && PivotsAtOrBelow(pivots) ==>
      IsPermutation(RowOrder(pivots, A.Rows()), A.Rows())
      && Mul(res.value.l.Value(), res.value.u.Value(), A.Rows(), A.Rows(), A.Rows())
         == Mul(PermMatrix(RowOrder(pivots, A.Rows()), A.Rows()), old(A.Value()), A.Rows(), A.Rows(), A.Rows())
      && PivotsUsable(A.Value(), if A.Rows() == 0 then 0 else A.Rows() - 1, useLup)
    ensures res.Ok? && !useLup ==>
      Mul(res.value.l.Value(), res.value.u.Value(), A.Rows(), A.Rows(), A.Rows()) == old(A.Value())
    ensures A.IsSquareMatrix() && A.Rows() <= 3 ==> PivotsAtOrBelow(pivots)
    ensures !useLup ==> pivots == [] && A.swapCount == old(A.swapCount)
  {
    states, pivots := [], [];
    if !A.IsSquareMatrix() {
      return Err(NotSquare), states, pivots;
    }
    var n := A.Rows();
    ghost var a0 := A.Value();
    var P: Matrix? := null;
    if useLup {
      P := A.Identity();
      IotaIdentity(n);
    }
    var ok;
    ok, states, pivots := Doolittle(A, P, useLup);
    if n <= 3 {
      SmallRunsPivotBelow(a0, states, pivots, useLup);
    }
    if !ok {
      return Err(if useLup then SingularPivot else DivisionByZero), states, pivots;
    }
    var d := AssembleViews(A, P, useLup, a0, states, pivots);
    res := Ok(d);
  }

  /**
   * The L and U views over the factorized A, and P when pivoting. When the
   * complete run's pivots lie at or below their steps, L * U is P * a0 for
   * the run's row order, and a0 itself without pivoting.
   */
  method AssembleViews(A: Matrix, P: Matrix?, useLup: bool, ghost a0: Mat, ghost states: seq<Mat>, ghost pivots: seq<nat>)
    returns (d: Decomposition)
    requires A.IsSquareMatrix() && (useLup <==> P != null)
    requires IsRun(a0, states, pivots, useLup, false) && |a0| == A.Rows()
    requires |states| == (if A.Rows() == 0 then 1 else A.Rows()) && A.Value() == states[|states| - 1]
    ensures fresh(d.l) && d.l.matrix == A && d.l.isL && fresh(d.u) && d.u.matrix == A && !d.u.isL
    ensures d.p == if useLup then Some(P) else None
    ensures PivotsAtOrBelow(pivots) ==>
      IsPermutation(RowOrder(pivots, A.Rows()), A.Rows())
      && Mul(d.l.Value(), d.u.Value(), A.Rows(), A.Rows(), A.Rows())
         == Mul(PermMatrix(RowOrder(pivots, A.Rows()), A.Rows()), a0, A.Rows(), A.Rows(), A.Rows())
      && PivotsUsable(A.Value(), if A.Rows() == 0 then 0 else A.Rows() - 1, useLup)
    ensures !useLup ==> Mul(d.l.Value(), d.u.Value(), A.Rows(), A.Rows(), A.Rows()) == a0
  {
    var l := new LUMatrixView(A, true);
    var u := new LUMatrixView(A, false);
    if PivotsAtOrBelow(pivots) {
      RunFactors(a0, states, pivots, useLup, false, |states| - 1);
      assert pivots[..Min(|states| - 1, |pivots|)] == pivots;
      Assembled(A.Value(), a0, RowOrder(pivots, A.Rows()), useLup);
      if !useLup {
        UnpivotedProduct(l.Value(), u.Value(), a0, A.Rows());
      }
    }
    d := Decomposition(l, u, if useLup then Some(P) else None);
  }

  // ---------------------------------------------------------------------
  // Where the scan from row 1 goes wrong

  /** The identity with a 5 at row 1, column 2: steps 0 and 1 leave it as it is. */
  const Exhibit: Mat := [[1.0, 0.0, 0.0, 0.0], [0.0, 1.0, 5.0, 0.0], [0.0, 0.0, 1.0, 0.0], [0.0, 0.0, 0.0, 1.0]]

  /** Steps 0 and 1 of either scan pick the step's own row on Exhibit. */
  lemma ExhibitFirstChoices()
    ensures IsSquare(Exhibit) && |Exhibit| == 4
    ensures IsScanChoice(Exhibit, 0, 1, 0) && IsScanChoice(Exhibit, 1, 1, 1) && IsScanChoice(Exhibit, 1, 0, 1)
    ensures SwapRows(Exhibit, 0, 0) == Exhibit && SwapRows(Exhibit, 1, 1) == Exhibit && SwapRows(Exhibit, 2, 2) == Exhibit
  {
  }

  /** Eliminating column t < 3 of Exhibit, whose entries below the diagonal are zero, changes nothing. */
  lemma ExhibitEliminate(t: nat)
    requires t < 3
    ensures IsSquare(Exhibit) && Exhibit[t][t] != 0.0 && Eliminate(Exhibit, t) == Exhibit
  {
    var e := Exhibit;
    forall r, c | 0 <= r < 4 && 0 <= c < 4
      ensures Eliminate(e, t)[r][c] == e[r][c]
    {
      if r > t && c >= t {
        assert e[r][t] == 0.0;
      }
    }
    MatEq(Eliminate(e, t), e, 4, 4);
  }

  /**
   * On Exhibit the scan starting at row 1 settles, at step 2, on the
   * finished row 1; swapping it in and eliminating gives factors whose
   * product is not the row-permuted input.
   */
  lemma ScanFromRowOneBreaksFactors()
    ensures IsSquare(Exhibit) && IsScanChoice(Exhibit, 2, 1, 1)
    ensures IsSquare(Eliminate(SwapRows(Exhibit, 1, 2), 2))
    ensures var s := Eliminate(SwapRows(Exhibit, 1, 2), 2);
      Mul(UnitLower(s), Upper(s), 4, 4, 4) != Mul(PermMatrix([0, 2, 1, 3], 4), Exhibit, 4, 4, 4)
  {
    var a := Exhibit;
    var s := Eliminate(SwapRows(a, 1, 2), 2);
    var perm: seq<nat> := [0, 2, 1, 3];
    var lu := Mul(UnitLower(s), Upper(s), 4, 4, 4);
    MulPermMatrix(perm, a, 4, 4);
    assert s[2][1] == 1.0 && s[1][2] == 1.0 && s[2][2] == 5.0;
    assert lu[2][2] == Span(UnitLower(s), Upper(s), 2, 2, 0, 4);
    assert UnitLower(s)[2][0] == 0.0 && UnitLower(s)[2][1] == 1.0 && UnitLower(s)[2][2] == 1.0 && UnitLower(s)[2][3] == 0.0;
    assert Upper(s)[1][2] == 1.0 && Upper(s)[2][2] == 5.0;
    assert lu[2][2] == 6.0;
    assert PermuteRows(a, perm)[2][2] == 5.0;
  }

  /** Neither scan is stuck at steps 0, 1 and 2 of Exhibit. */
  lemma ExhibitNotStuck(fromStep: bool)
    ensures IsSquare(Exhibit) && |Exhibit| == 4
    ensures !Stuck(Exhibit, 0, true, fromStep) && !Stuck(Exhibit, 1, true, fromStep) && !Stuck(Exhibit, 2, true, fromStep)
  {
    assert Abs(Exhibit[0][0]) > Epsilon && Abs(Exhibit[1][1]) > Epsilon && Abs(Exhibit[2][2]) > Epsilon;
  }

  /** Step t of a run is a Step from states[t] to states[t + 1]. */
  lemma RunStepAt(a0: Mat, states: seq<Mat>, pivots: seq<nat>, useLup: bool, fromStep: bool, t: nat)
    requires IsRun(a0, states, pivots, useLup, fromStep) && t + 1 < |states|
    ensures Step(states[t], t, PivotOf(pivots, t, useLup), states[t + 1], useLup, fromStep)
  {
  }

  /** From Exhibit, steps 0 and 1 of the scan as written keep their own rows and change nothing; step 2 picks row 1. */
  lemma AsWrittenStepOnExhibit(t: nat, p: nat, s2: Mat)
    requires t < 3 && Step(Exhibit, t, p, s2, true, false)
    ensures p == (if t == 2 then 1 else t)
    ensures s2 == if t == 2 then Eliminate(SwapRows(Exhibit, 1, 2), 2) else Exhibit
  {
    ExhibitFirstChoices();
    ScanFromRowOneBreaksFactors();
    ScanChoiceUnique(Exhibit, t, 1, p, if t == 2 then 1 else t);
    if t < 2 {
      ExhibitEliminate(t);
    }
  }

  /** From Exhibit, each of steps 0, 1 and 2 of the corrected scan keeps its own row and changes nothing. */
  lemma CorrectedStepOnExhibit(t: nat, p: nat, s2: Mat)
    requires t < 3 && Step(Exhibit, t, p, s2, true, true)
    ensures p == t && s2 == Exhibit
  {
    ExhibitFirstChoices();
    assert IsScanChoice(Exhibit, 0, 0, 0) && IsScanChoice(Exhibit, 2, 2, 2);
    ScanChoiceUnique(Exhibit, t, t, p, t);
    ExhibitEliminate(t);
  }

  /** The row order of three pivots, one exchange per step. */
  lemma RowOrderOfThree(a: nat, b: nat, c: nat)
    requires a < 4 && b < 4 && c < 4
    ensures RowOrder([a, b, c], 4) == SwapRows(SwapRows(SwapRows(Iota(4), a, 0), b, 1), c, 2)
  {
    assert [a, b, c][..2] == [a, b] && [a, b][..1] == [a] && [a][..0] == [];
    assert RowOrder([a], 4) == SwapRows(Iota(4), a, 0);
    assert RowOrder([a, b], 4) == SwapRows(RowOrder([a], 4), b, 1);
  }

  /**
   * The decomposition as written, with pivoting, on Exhibit: no step is
   * stuck, steps 0 and 1 keep their own rows, step 2 brings back the
   * finished row 1, and the factors it returns do not multiply to the
   * row-permuted input.
   */
  lemma AsWrittenRunOnExhibit(states: seq<Mat>, pivots: seq<nat>)
    requires IsRun(Exhibit, states, pivots, true, false)
    requires |states| < 4 ==> Stuck(states[|states| - 1], |states| - 1, true, false)
    ensures |states| == 4 && pivots == [0, 1, 1] && !PivotsAtOrBelow(pivots)
    ensures Mul(UnitLower(states[3]), Upper(states[3]), 4, 4, 4)
      != Mul(PermMatrix(RowOrder(pivots, 4), 4), Exhibit, 4, 4, 4)
  {
    ExhibitNotStuck(false);
    assert |states| >= 2;
    RunStepAt(Exhibit, states, pivots, true, false, 0);
    AsWrittenStepOnExhibit(0, pivots[0], states[1]);
    assert |states| >= 3;
    RunStepAt(Exhibit, states, pivots, true, false, 1);
    AsWrittenStepOnExhibit(1, pivots[1], states[2]);
    assert |states| >= 4;
    RunStepAt(Exhibit, states, pivots, true, false, 2);
    AsWrittenStepOnExhibit(2, pivots[2], states[3]);
    assert pivots == [0, 1, 1];
    RowOrderOfThree(0, 1, 1);
    assert RowOrder(pivots, 4) == [0, 2, 1, 3];
    ScanFromRowOneBreaksFactors();
  }

  /**
   * The corrected scan on Exhibit: no step is stuck, every step keeps its
   * own row, and the complete run factors the input with the identity row
   * order.
   */
  lemma CorrectedRunOnExhibit(states: seq<Mat>, pivots: seq<nat>)
    requires IsRun(Exhibit, states, pivots, true, true)
    requires |states| < 4 ==> Stuck(states[|states| - 1], |states| - 1, true, true)
    ensures |states| == 4 && pivots == [0, 1, 2]
    ensures Mul(UnitLower(states[3]), Upper(states[3]), 4, 4, 4) == Exhibit
  {
    ExhibitNotStuck(true);
    assert |states| >= 2;
    RunStepAt(Exhibit, states, pivots, true, true, 0);
    CorrectedStepOnExhibit(0, pivots[0], states[1]);
    assert |states| >= 3;
    RunStepAt(Exhibit, states, pivots, true, true, 1);
    CorrectedStepOnExhibit(1, pivots[1], states[2]);
    assert |states| >= 4;
    RunStepAt(Exhibit, states, pivots, true, true, 2);
    CorrectedStepOnExhibit(2, pivots[2], states[3]);
    assert pivots == [0, 1, 2];
    CorrectedRunFactors(Exhibit, states, pivots, true);
    IdentityOrderProduct(pivots);
  }

  /** Pivots that each keep their own row leave Exhibit in place: P * Exhibit is Exhibit. */
  lemma IdentityOrderProduct(pivots: seq<nat>)
    requires pivots == [0, 1, 2]
    ensures IsSquare(Exhibit) && |Exhibit| == 4
    ensures Mul(PermMatrix(RowOrder(pivots, 4), 4), Exhibit, 4, 4, 4) == Exhibit
  {
    RowOrderOfThree(0, 1, 2);
    assert RowOrder(pivots, 4) == Iota(4);
    IotaIdentity(4);
    MulIdentity(Exhibit, 4, 4);
  }

  /**
   * The determinant from an LUP decomposition: (-1)^k times the
   * determinants of the two views, given k row swaps.
   */
  method LupDeterminant(k: int, L: LUMatrixView, U: LUMatrixView) returns (res: Result<real>)
    ensures L.IsSquareMatrix() && U.IsSquareMatrix() ==> res == Ok(Times(Times(Sign(k), Det(L.Value())), Det(U.Value())))
    ensures !L.IsSquareMatrix() || !U.IsSquareMatrix() ==> res == Err(NotSquare)
  {
    var sign := Sign(k);
    // Each view's Determinant refuses a non-square view with this same error.
    if !L.IsSquareMatrix() || !U.IsSquareMatrix() {
      return Err(NotSquare);
    }
    var dl := L.Determinant();
    var du := U.Determinant();
    res := Ok(Times(Times(sign, dl.value), du.value));
  }
}
