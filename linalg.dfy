/**
 * Dense matrices as values: the mathematics the matrix engine computes.
 * A matrix is a sequence of rows; every operation of the engine is specified
 * in terms of these functions.
 */
module LinAlg {

  type Mat = seq<seq<real>>

  /** `m` has exactly `rows` rows of `cols` entries each. */
  predicate IsMat(m: Mat, rows: nat, cols: nat) {
    |m| == rows && forall i :: 0 <= i < rows ==> |m[i]| == cols
  }

  predicate IsSquare(m: Mat) {
    IsMat(m, |m|, |m|)
  }

  function Abs(x: real): (r: real)
    ensures r >= 0.0 && (r == x || r == -x)
  {
    if x < 0.0 then -x else x
  }

  /** (-1)^k, decided by the parity of k (Dafny's % is never negative). */
  function Sign(k: int): (s: real)
    ensures s == 1.0 || s == -1.0
  {
    if k % 2 == 0 then 1.0 else -1.0
  }

  function Zero(rows: nat, cols: nat): (z: Mat)
    ensures IsMat(z, rows, cols)
  {
    seq(rows, i => seq(cols, j => 0.0))
  }

  /** Ones where the row index equals the column index, zeros elsewhere. */
  function Identity(rows: nat, cols: nat): (z: Mat)
    ensures IsMat(z, rows, cols)
  {
    seq(rows, i => seq(cols, j => if i == j then 1.0 else 0.0))
  }

  function Add(a: Mat, b: Mat, rows: nat, cols: nat): (s: Mat)
    requires IsMat(a, rows, cols) && IsMat(b, rows, cols)
    ensures IsMat(s, rows, cols)
  {
    seq(rows, i requires 0 <= i < rows => seq(cols, j requires 0 <= j < cols => a[i][j] + b[i][j]))
  }

  function Sub(a: Mat, b: Mat, rows: nat, cols: nat): (s: Mat)
    requires IsMat(a, rows, cols) && IsMat(b, rows, cols)
    ensures IsMat(s, rows, cols)
  {
    seq(rows, i requires 0 <= i < rows => seq(cols, j requires 0 <= j < cols => a[i][j] - b[i][j]))
  }

  function Scale(a: Mat, x: real, rows: nat, cols: nat): (s: Mat)
    requires IsMat(a, rows, cols)
    ensures IsMat(s, rows, cols)
  {
    seq(rows, i requires 0 <= i < rows => seq(cols, j requires 0 <= j < cols => x * a[i][j]))
  }

  function Transpose(a: Mat, rows: nat, cols: nat): (t: Mat)
    requires IsMat(a, rows, cols)
    ensures IsMat(t, cols, rows)
  {
    seq(cols, j requires 0 <= j < cols => seq(rows, i requires 0 <= i < rows => a[i][j]))
  }

  /** Sum over k in [lo, hi) of a[i][k] * b[k][j]. */
  function Span(a: Mat, b: Mat, i: nat, j: nat, lo: nat, hi: nat): real
    requires i < |a| && lo <= hi <= |a[i]| && hi <= |b|
    requires forall k :: lo <= k < hi ==> j < |b[k]|
    decreases hi - lo
  {
    if hi == lo then 0.0 else Span(a, b, i, j, lo, hi - 1) + Times(a[i][hi - 1], b[hi - 1][j])
  }

  /** The matrix product of an n-by-p matrix and a p-by-q matrix. */
  function Mul(a: Mat, b: Mat, n: nat, p: nat, q: nat): (c: Mat)
    requires IsMat(a, n, p) && IsMat(b, p, q)
    ensures IsMat(c, n, q)
  {
    seq(n, i requires 0 <= i < n => seq(q, j requires 0 <= j < q => Span(a, b, i, j, 0, p)))
  }

  /** Entries i and j exchanged: two rows of a matrix, or two positions of a row order. */
  function SwapRows<T>(m: seq<T>, i: nat, j: nat): (s: seq<T>)
    requires i < |m| && j < |m|
    ensures |s| == |m| && s[i] == m[j] && s[j] == m[i]
    ensures forall k :: 0 <= k < |m| && k != i && k != j ==> s[k] == m[k]
  {
    m[i := m[j]][j := m[i]]
  }

  /** `m` without row `row` and column `col`. */
  function Minor(m: Mat, row: nat, col: nat): (r: Mat)
    requires row < |m| && forall i :: 0 <= i < |m| ==> col < |m[i]|
    ensures |r| == |m| - 1
    ensures forall i :: 0 <= i < |r| ==> |r[i]| == |m[if i < row then i else i + 1]| - 1
    ensures IsSquare(m) ==> IsSquare(r)
  {
    seq(|m| - 1, i requires 0 <= i < |m| - 1 =>
      var src := if i < row then i else i + 1;
      seq(|m[src]| - 1, j requires 0 <= j < |m[src]| - 1 => m[src][if j < col then j else j + 1]))
  }

  /**
   * Real multiplication under a name, used by the determinant and the
   * diagonal product: two products with equal factors are then equal by
   * congruence alone, with no nonlinear arithmetic.
   */
  function Times(a: real, b: real): real {
    a * b
  }

  /** (-1)^j * x: the same parity sign as Sign(j), applied to x. */
  function Signed(j: nat, x: real): real {
    if j % 2 == 0 then x else -x
  }

  /** The determinant, by cofactor expansion along the first row. */
  function Det(m: Mat): real
    requires IsSquare(m)
    decreases |m|, |m| + 1
  {
    if |m| == 0 then 1.0 else Cofactors(m, |m|)
  }

  /** Sum over j < k of (-1)^j * m[0][j] * Det(Minor(m, 0, j)). */
  function Cofactors(m: Mat, k: nat): real
    requires IsSquare(m) && 0 < |m| && k <= |m|
    decreases |m|, k
  {
    if k == 0 then 0.0
    else Cofactors(m, k - 1) + Signed(k - 1, Times(m[0][k - 1], Det(Minor(m, 0, k - 1))))
  }

  /** The unit lower triangle of m: 1 on the diagonal, m strictly below it, 0 above. */
  function UnitLower(m: Mat): (l: Mat)
    ensures |l| == |m| && forall i :: 0 <= i < |m| ==> |l[i]| == |m[i]|
    ensures IsSquare(m) ==> IsSquare(l)
  {
    seq(|m|, i requires 0 <= i < |m| =>
      seq(|m[i]|, j requires 0 <= j < |m[i]| => if i == j then 1.0 else if i > j then m[i][j] else 0.0))
  }

  /** The upper triangle of m: m on and above the diagonal, 0 below. */
  function Upper(m: Mat): (u: Mat)
    ensures |u| == |m| && forall i :: 0 <= i < |m| ==> |u[i]| == |m[i]|
    ensures IsSquare(m) ==> IsSquare(u)
  {
    seq(|m|, i requires 0 <= i < |m| =>
      seq(|m[i]|, j requires 0 <= j < |m[i]| => if j >= i then m[i][j] else 0.0))
  }

  /** The diagonal entries of a square matrix, top to bottom. */
  function Diagonal(m: Mat): (d: seq<real>)
    requires IsSquare(m)
    ensures |d| == |m|
  {
    seq(|m|, i requires 0 <= i < |m| => m[i][i])
  }

  /** The product of a sequence of reals; 1 for the empty sequence. */
  function Product(s: seq<real>): real {
    if |s| == 0 then 1.0 else Times(s[0], Product(s[1..]))
  }

  /** `perm` lists each of 0 .. n-1 exactly once. */
  predicate IsPermutation(perm: seq<nat>, n: nat) {
    |perm| == n
    && (forall i :: 0 <= i < n ==> perm[i] < n)
    && (forall i, j :: 0 <= i < j < n ==> perm[i] != perm[j])
  }

  function Iota(n: nat): (s: seq<nat>)
    ensures |s| == n && forall i :: 0 <= i < n ==> s[i] == i
  {
    seq(n, i => i)
  }

  /** Row i of the permutation matrix is the unit row selecting column perm[i]. */
  function PermMatrix(perm: seq<nat>, n: nat): (p: Mat)
    ensures IsMat(p, |perm|, n)
  {
    seq(|perm|, i requires 0 <= i < |perm| => seq(n, j => if perm[i] == j then 1.0 else 0.0))
  }

  /** Row i of the result is row perm[i] of m. */
  function PermuteRows(m: Mat, perm: seq<nat>): (r: Mat)
    requires forall i :: 0 <= i < |perm| ==> perm[i] < |m|
    ensures |r| == |perm|
  {
    seq(|perm|, i requires 0 <= i < |perm| => m[perm[i]])
  }

  /** Two matrices of the same shape with the same entries are equal. */
  lemma MatEq(x: Mat, y: Mat, rows: nat, cols: nat)
    requires IsMat(x, rows, cols) && IsMat(y, rows, cols)
    requires forall i, j :: 0 <= i < rows && 0 <= j < cols ==> x[i][j] == y[i][j]
    ensures x == y
  {
    forall i | 0 <= i < rows
      ensures x[i] == y[i]
    {
      assert forall j :: 0 <= j < cols ==> x[i][j] == y[i][j];
    }
  }

  // ---------------------------------------------------------------------
  // Sums

  /** A sum over [lo, hi) splits at any point in between. */
  lemma {:induction false} SpanSplit(a: Mat, b: Mat, i: nat, j: nat, lo: nat, mid: nat, hi: nat)
    requires i < |a| && lo <= mid <= hi <= |a[i]| && hi <= |b|
    requires forall k :: lo <= k < hi ==> j < |b[k]|
    ensures Span(a, b, i, j, lo, hi) == Span(a, b, i, j, lo, mid) + Span(a, b, i, j, mid, hi)
    decreases hi - mid
  {
    if hi > mid {
      SpanSplit(a, b, i, j, lo, mid, hi - 1);
    }
  }

  /** A sum depends only on the terms it adds: row i of a (row i2 of a2) and column j of b on [lo, hi). */
  lemma {:induction false} SpanCongruent(a: Mat, b: Mat, i: nat, a2: Mat, b2: Mat, i2: nat, j: nat, lo: nat, hi: nat)
    requires i < |a| && lo <= hi <= |a[i]| && hi <= |b|
    requires forall k :: lo <= k < hi ==> j < |b[k]|
    requires i2 < |a2| && hi <= |a2[i2]| && hi <= |b2|
    requires forall k :: lo <= k < hi ==> j < |b2[k]|
    requires forall k :: lo <= k < hi ==> Times(a[i][k], b[k][j]) == Times(a2[i2][k], b2[k][j])
    ensures Span(a, b, i, j, lo, hi) == Span(a2, b2, i2, j, lo, hi)
    decreases hi - lo
  {
    if hi > lo {
      SpanCongruent(a, b, i, a2, b2, i2, j, lo, hi - 1);
    }
  }

  /** A sum whose every term is zero is zero. */
  lemma {:induction false} SpanZero(a: Mat, b: Mat, i: nat, j: nat, lo: nat, hi: nat)
    requires i < |a| && lo <= hi <= |a[i]| && hi <= |b|
    requires forall k :: lo <= k < hi ==> j < |b[k]|
    requires forall k :: lo <= k < hi ==> a[i][k] == 0.0
    ensures Span(a, b, i, j, lo, hi) == 0.0
    decreases hi - lo
  {
    if hi > lo {
      SpanZero(a, b, i, j, lo, hi - 1);
    }
  }

  /** Against a unit row selecting column s, a sum picks out the single entry b[s][j]. */
  lemma {:induction false} SpanUnitRow(a: Mat, b: Mat, i: nat, j: nat, s: nat, hi: nat)
    requires i < |a| && hi <= |a[i]| && hi <= |b|
    requires forall k :: 0 <= k < hi ==> j < |b[k]|
    requires forall k :: 0 <= k < hi ==> a[i][k] == if k == s then 1.0 else 0.0
    ensures Span(a, b, i, j, 0, hi) == if s < hi then b[s][j] else 0.0
  {
    if hi > 0 {
      SpanUnitRow(a, b, i, j, s, hi - 1);
    }
  }

  // ---------------------------------------------------------------------
  // Algebra of the entrywise operations

  /** Subtracting what was added gives the matrix back. */
  lemma AddSubCancel(a: Mat, b: Mat, rows: nat, cols: nat)
    requires IsMat(a, rows, cols) && IsMat(b, rows, cols)
    ensures Sub(Add(a, b, rows, cols), b, rows, cols) == a
  {
    MatEq(Sub(Add(a, b, rows, cols), b, rows, cols), a, rows, cols);
  }

  /** Addition does not depend on the order of its operands. */
  lemma AddCommutes(a: Mat, b: Mat, rows: nat, cols: nat)
    requires IsMat(a, rows, cols) && IsMat(b, rows, cols)
    ensures Add(a, b, rows, cols) == Add(b, a, rows, cols)
  {
    MatEq(Add(a, b, rows, cols), Add(b, a, rows, cols), rows, cols);
  }

  /** Transposing twice gives the matrix back. */
  lemma TransposeTwice(a: Mat, rows: nat, cols: nat)
    requires IsMat(a, rows, cols)
    ensures Transpose(Transpose(a, rows, cols), cols, rows) == a
  {
    MatEq(Transpose(Transpose(a, rows, cols), cols, rows), a, rows, cols);
  }

  /** Scaling by x and then by 1/x gives the matrix back. */
  lemma ScaleInverse(a: Mat, x: real, rows: nat, cols: nat)
    requires IsMat(a, rows, cols) && x != 0.0
    ensures Scale(Scale(a, x, rows, cols), 1.0 / x, rows, cols) == a
  {
    forall i, j | 0 <= i < rows && 0 <= j < cols
      ensures Scale(Scale(a, x, rows, cols), 1.0 / x, rows, cols)[i][j] == a[i][j]
    {
      assert (1.0 / x) * (x * a[i][j]) == ((1.0 / x) * x) * a[i][j];
    }
    MatEq(Scale(Scale(a, x, rows, cols), 1.0 / x, rows, cols), a, rows, cols);
  }

  /** Swapping the same two rows twice gives the matrix back. */
  lemma SwapRowsTwice(m: Mat, i: nat, j: nat)
    requires i < |m| && j < |m|
    ensures SwapRows(SwapRows(m, i, j), i, j) == m
  {
    assert forall r :: 0 <= r < |m| ==> SwapRows(SwapRows(m, i, j), i, j)[r] == m[r];
  }

  // ---------------------------------------------------------------------
  // Permutation matrices

  /** Multiplying by a permutation matrix on the left permutes the rows. */
  lemma MulPermMatrix(perm: seq<nat>, a: Mat, n: nat, q: nat)
    requires IsMat(a, n, q)
    requires forall i :: 0 <= i < |perm| ==> perm[i] < n
    ensures Mul(PermMatrix(perm, n), a, |perm|, n, q) == PermuteRows(a, perm)
  {
    var p := PermMatrix(perm, n);
    var c := Mul(p, a, |perm|, n, q);
    forall i | 0 <= i < |perm|
      ensures c[i] == a[perm[i]]
    {
      forall j | 0 <= j < q
        ensures c[i][j] == a[perm[i]][j]
      {
        SpanUnitRow(p, a, i, j, perm[i], n);
      }
    }
  }

  /** The identity ordering gives the identity matrix. */
  lemma IotaIdentity(n: nat)
    ensures PermMatrix(Iota(n), n) == Identity(n, n)
  {
    MatEq(PermMatrix(Iota(n), n), Identity(n, n), n, n);
  }

  /** The identity matrix leaves a matrix unchanged. */
  lemma MulIdentity(a: Mat, n: nat, q: nat)
    requires IsMat(a, n, q)
    ensures Mul(Identity(n, n), a, n, n, q) == a
  {
    IotaIdentity(n);
    MulPermMatrix(Iota(n), a, n, q);
  }

  /** Exchanging two entries of a permutation keeps it a permutation and swaps the matching rows. */
  lemma SwapPermutation(perm: seq<nat>, n: nat, i: nat, j: nat)
    requires IsPermutation(perm, n) && i < n && j < n
    ensures IsPermutation(SwapRows(perm, i, j), n)
    ensures PermMatrix(SwapRows(perm, i, j), n) == SwapRows(PermMatrix(perm, n), i, j)
  {
    var s := SwapRows(perm, i, j);
    forall x, y | 0 <= x < y < n
      ensures s[x] != s[y]
    {
      var x0 := if x == i then j else if x == j then i else x;
      var y0 := if y == i then j else if y == j then i else y;
      assert s[x] == perm[x0] && s[y] == perm[y0] && x0 != y0;
      if x0 < y0 {} else {}
    }
  }

  // ---------------------------------------------------------------------
  // Determinants of triangular matrices

  /** A product with a zero factor is zero. */
  lemma TimesZero(a: real, b: real)
    requires a == 0.0 || b == 0.0
    ensures Times(a, b) == 0.0
  {
  }

  lemma TimesAssociative(a: real, b: real, c: real)
    ensures Times(Times(a, b), c) == Times(a, Times(b, c))
  {
  }

  /** Every entry below the diagonal is zero. */
  ghost predicate IsUpperTriangular(u: Mat)
    requires IsSquare(u)
  {
    forall i, j :: 0 <= j < i < |u| ==> u[i][j] == 0.0
  }

  /** Every entry above the diagonal is zero and every diagonal entry is one. */
  ghost predicate IsUnitLowerTriangular(l: Mat)
    requires IsSquare(l)
  {
    forall i, j :: 0 <= i < |l| && 0 <= j < |l| ==> (i < j ==> l[i][j] == 0.0) && (i == j ==> l[i][j] == 1.0)
  }

  /** When every term after the first vanishes, the expansion is its first term. */
  lemma {:induction false} CofactorsHead(m: Mat, k: nat)
    requires IsSquare(m) && 0 < k <= |m|
    requires forall j :: 1 <= j < k ==> m[0][j] == 0.0 || Det(Minor(m, 0, j)) == 0.0
    ensures Cofactors(m, k) == Times(m[0][0], Det(Minor(m, 0, 0)))
  {
    if k > 1 {
      CofactorsHead(m, k - 1);
      TimesZero(m[0][k - 1], Det(Minor(m, 0, k - 1)));
    }
  }

  /** A square matrix whose first column is zero has determinant zero. */
  lemma {:induction false} DetZeroColumn(m: Mat)
    requires IsSquare(m) && 0 < |m|
    requires forall i :: 0 <= i < |m| ==> m[i][0] == 0.0
    ensures Det(m) == 0.0
    decreases |m|
  {
    forall j | 1 <= j < |m|
      ensures Det(Minor(m, 0, j)) == 0.0
    {
      var mi := Minor(m, 0, j);
      forall i | 0 <= i < |mi|
        ensures mi[i][0] == 0.0
      {
        assert mi[i][0] == m[i + 1][0];
      }
      DetZeroColumn(mi);
    }
    CofactorsHead(m, |m|);
    TimesZero(m[0][0], Det(Minor(m, 0, 0)));
  }

  /** Appending an entry multiplies the product by it. */
  lemma {:induction false} ProductSnoc(s: seq<real>, x: real)
    ensures Product(s + [x]) == Times(Product(s), x)
  {
    if |s| == 0 {
      assert s + [x] == [x];
      assert Product([x]) == Times(x, Product([]));
    } else {
      assert (s + [x])[1..] == s[1..] + [x];
      ProductSnoc(s[1..], x);
      TimesAssociative(s[0], Product(s[1..]), x);
    }
  }

  /** The leading minor's diagonal is the rest of the matrix's diagonal. */
  lemma LeadingMinorDiagonal(m: Mat)
    requires IsSquare(m) && 0 < |m|
    ensures IsSquare(Minor(m, 0, 0)) && Diagonal(Minor(m, 0, 0)) == Diagonal(m)[1..]
  {
    var mi := Minor(m, 0, 0);
    forall i | 0 <= i < |mi|
      ensures Diagonal(mi)[i] == Diagonal(m)[1..][i]
    {
      assert mi[i][i] == m[i + 1][i + 1];
    }
  }

  /** Removing the first row and a later column of an upper triangular matrix leaves a zero first column. */
  lemma UpperTriangularMinors(u: Mat)
    requires IsSquare(u) && |u| > 0 && IsUpperTriangular(u)
    ensures forall j :: 1 <= j < |u| ==> u[0][j] == 0.0 || Det(Minor(u, 0, j)) == 0.0
  {
    forall j | 1 <= j < |u|
      ensures Det(Minor(u, 0, j)) == 0.0
    {
      var mi := Minor(u, 0, j);
      forall i | 0 <= i < |mi|
        ensures mi[i][0] == 0.0
      {
        assert mi[i][0] == u[i + 1][0];
      }
      DetZeroColumn(mi);
    }
  }

  /** The leading minor of an upper triangular matrix is upper triangular. */
  lemma UpperTriangularMinor(u: Mat)
    requires IsSquare(u) && |u| > 0 && IsUpperTriangular(u)
    ensures IsSquare(Minor(u, 0, 0)) && IsUpperTriangular(Minor(u, 0, 0))
  {
    var mi := Minor(u, 0, 0);
    forall i, j | 0 <= j < i < |mi|
      ensures mi[i][j] == 0.0
    {
      assert mi[i][j] == u[i + 1][j + 1];
    }
  }

  /** The determinant of an upper triangular matrix is the product of its diagonal. */
  lemma {:induction false} DetUpperTriangular(u: Mat)
    requires IsSquare(u) && IsUpperTriangular(u)
    ensures Det(u) == Product(Diagonal(u))
    decreases |u|
  {
    if |u| > 0 {
      var mi := Minor(u, 0, 0);
      DetUpperHead(u);
      UpperTriangularMinor(u);
      DetUpperTriangular(mi);
      LeadingMinorDiagonal(u);
      assert Diagonal(u)[0] == u[0][0];
    }
  }

  /** Expanding an upper triangular matrix along its first row leaves only the first term. */
  lemma DetUpperHead(u: Mat)
    requires IsSquare(u) && 0 < |u| && IsUpperTriangular(u)
    ensures Det(u) == Times(u[0][0], Det(Minor(u, 0, 0)))
  {
    UpperTriangularMinors(u);
    CofactorsHead(u, |u|);
  }



  /** The determinant of the upper triangle of m is the product of m's diagonal. */
  lemma DetUpper(m: Mat)
    requires IsSquare(m)
    ensures Det(Upper(m)) == Product(Diagonal(m))
  {
    var u := Upper(m);
    assert IsUpperTriangular(u);
    DetUpperTriangular(u);
    assert Diagonal(u) == Diagonal(m);
  }

  /** The leading minor of a unit lower triangular matrix is unit lower triangular. */
  lemma UnitLowerTriangularMinor(l: Mat)
    requires IsSquare(l) && |l| > 0 && IsUnitLowerTriangular(l)
    ensures IsSquare(Minor(l, 0, 0)) && IsUnitLowerTriangular(Minor(l, 0, 0))
  {
    var mi := Minor(l, 0, 0);
    forall i, j | 0 <= i < |mi| && 0 <= j < |mi|
      ensures (i < j ==> mi[i][j] == 0.0) && (i == j ==> mi[i][j] == 1.0)
    {
      assert mi[i][j] == l[i + 1][j + 1];
    }
  }

  /** The determinant of a unit lower triangular matrix is one. */
  lemma {:induction false} DetUnitLowerTriangular(l: Mat)
    requires IsSquare(l) && IsUnitLowerTriangular(l)
    ensures Det(l) == 1.0
    decreases |l|
  {
    if |l| > 0 {
      assert forall j :: 1 <= j < |l| ==> l[0][j] == 0.0;
      CofactorsHead(l, |l|);
      UnitLowerTriangularMinor(l);
      DetUnitLowerTriangular(Minor(l, 0, 0));
      assert Times(1.0, 1.0) == 1.0;
    }
  }

  /** The determinant of the unit lower triangle of m is one. */
  lemma DetUnitLower(m: Mat)
    requires IsSquare(m)
    ensures Det(UnitLower(m)) == 1.0
  {
    assert IsUnitLowerTriangular(UnitLower(m));
    DetUnitLowerTriangular(UnitLower(m));
  }
}
