# LU/LUP decomposition engine and unimodal bracketing, modelled in Dafny

This project models two parts of a small numerical-methods library.

The first part is the dense-matrix engine of the first homework:
- the `IMatrix` contract, as a `Matrix` class over an `array2<real>` with a swap counter;
- `LUMatrixView`, a read-only unit-lower (L) or upper (U) reading of one shared matrix;
- the routines of `MatrixUtils`:
  - forward substitution `fs` and backward substitution `bs`, both in place;
  - LU and LUP decomposition `luDecomposition`, in place, with partial pivoting into a permutation matrix P;
  - the sign-corrected determinant `lupDeterminant`.

The second part is the unimodal-interval search `UnimodalInterval.create` of the second homework.

Modules:
- `Outcomes`: the error kinds and the `Result`/`Outcome`/`Option` wrappers. A Java exception becomes an `Err` or `Fail` value.
- `LinAlg`: matrices as values (`seq<seq<real>>`). It holds:
  - the reference definitions: `Add`, `Sub`, `Scale`, `Transpose`, `Mul`, `Minor`;
  - `Det`, by cofactor expansion along row 0;
  - `UnitLower`, `Upper`, and permutation matrices;
  - the lemmas about them: triangular determinants, permutation matrices, and algebraic identities.
  - `Times(a, b)` is plain `a * b` under a name. Sums and products use it, so equal factors give equal terms.
- `Matrices`: the in-place `Matrix` class. Every method is proved against the `LinAlg` function it computes.
- `Views`: the `LUMatrixView` class. It holds a reference to a `Matrix` and copies nothing.
- `Factorization`: the mathematics of in-place Doolittle elimination. After t steps, the multipliers stored below the diagonal times the partially reduced upper part reproduce the input rows in the order of the permutation so far.
  - `Recon`/`Factors` is that invariant.
  - Both an elimination step and a row swap below the finished rows preserve it.
- `MatrixUtils`: `Fs`, `Bs`, `LuDecomposition`, `LupDeterminant`, and the loops they are made of.
  - `Fs` and `Bs` are proved against the products `Mul(UnitLower(L), x)` and `Mul(Upper(U), y)` of `LinAlg`.
  - `LuDecomposition` is proved against a run of elimination steps, and, through the invariant above, against `L * U == P * A0`.
- `UnimodalInterval`: `Create` and its two doubling walks. The objective is a function parameter `f: real -> real`.

What is proved, in short:
- after `Fs`, the unit lower triangle of L times the new column 0 of b is the old column 0;
- after `Bs`, with a nonzero diagonal, the upper triangle of U times the new column 0 of y is the old column 0;
- the decomposition's steps form a run: a sequence of working matrices, one elimination step apart, with the pivot scan as written (rows 1 .. n-1 besides row i) choosing each pivot;
- after a successful decomposition whose pivots all lie at or below their steps, `L * U == P * A0`. This always holds without pivoting (then `L * U == A0`) and for matrices of at most three rows;
- `P` is the permutation matrix of the run's row order;
- the swap counters of A and of P each stay between the number of steps that moved a row and the number of steps; that the two counters are equal is not proved;
- on failure, the model characterises the step that stopped the loop: every entry the scan weighs is within the threshold, or, without pivoting, the diagonal entry is zero;
- the U view's determinant is the product of the stored diagonal, and is the cofactor determinant of that view;
- the L view's determinant is 1;
- `Create` answers `[x0 - 1, x0 + 1]` when x0 is already a bracket, keeps `left < mid < right`, and pins down the points each walk reaches and where it stops;
- when f is strictly unimodal, every answer of `Create` contains the minimizer, except the one case shown below.

Behaviours of the source that the model keeps:
- the last diagonal entry of U is never checked; the usable pivots proved are those of rows 0 .. n-2;
- LUP calls `swapRows(i, i)` even when no exchange is needed;
- the pivot scan of every step starts at row 1, so from step 2 on it can bring back a finished row and break the factorization (see Findings);
- a tie `f(x0) == f(x0 + 1)` sends `create` leftward. For `f(x) = |x - 1/2|` from 0 the answer is `[-2, 0]`, which misses the minimizer (`UnimodalInterval.TieMissesMinimum`).

## Model

| member | source | states |
|---|---|---|
| LinAlg.Sign | dz1/src/main/java/hr/fer/zemris/apr/math/MatrixUtils.java:187 | (-1)^k is 1 or -1, fixed by the parity of k |
| LinAlg.AddSubCancel | dz1/src/main/java/hr/fer/zemris/apr/math/IMatrix.java:40-66 | subtracting what was added gives the matrix back |
| LinAlg.AddCommutes | dz1/src/main/java/hr/fer/zemris/apr/math/IMatrix.java:40-47 | entrywise addition does not depend on operand order |
| LinAlg.ScaleInverse | dz1/src/main/java/hr/fer/zemris/apr/math/IMatrix.java:78-84 | scaling by x and then by 1/x (x nonzero) gives the matrix back |
| LinAlg.TransposeTwice | dz1/src/main/java/hr/fer/zemris/apr/math/IMatrix.java:96-101 | transposing twice gives the matrix back |
| LinAlg.SwapRowsTwice | dz1/src/main/java/hr/fer/zemris/apr/math/IMatrix.java:129-137 | swapping the same two rows twice gives the matrix back |
| LinAlg.MulIdentity | dz1/src/main/java/hr/fer/zemris/apr/math/IMatrix.java:162-167 | the identity matrix times a is a |
| LinAlg.IotaIdentity | dz1/src/main/java/hr/fer/zemris/apr/math/MatrixUtils.java:147 | the permutation matrix of the identity order is the identity matrix, the P that LUP starts from |
| LinAlg.MulPermMatrix | dz1/src/main/java/hr/fer/zemris/apr/math/MatrixUtils.java:161-162 | the permutation matrix of perm times a is a with its rows taken in the order perm |
| LinAlg.SwapPermutation | dz1/src/main/java/hr/fer/zemris/apr/math/MatrixUtils.java:161-162 | exchanging two entries of a permutation gives a permutation, and its matrix is the old one with the same two rows swapped |
| LinAlg.DetUpperTriangular | dz1/src/main/java/hr/fer/zemris/apr/math/LUMatrixView.java:45-55 | the cofactor determinant of an upper triangular matrix is the product of its diagonal |
| LinAlg.DetUpper | dz1/src/main/java/hr/fer/zemris/apr/math/LUMatrixView.java:45-55 | the determinant of the upper triangle of m is the product of m's diagonal |
| LinAlg.DetUnitLowerTriangular | dz1/src/main/java/hr/fer/zemris/apr/math/LUMatrixView.java:49 | the cofactor determinant of a unit lower triangular matrix is 1 |
| LinAlg.DetUnitLower | dz1/src/main/java/hr/fer/zemris/apr/math/LUMatrixView.java:49 | the determinant of the unit lower triangle of m is 1 |
| Matrices.Matrix.Rows | dz1/src/main/java/hr/fer/zemris/apr/math/IMatrix.java:13 | the number of rows, the first dimension of the storage (`data.Length0`) |
| Matrices.Matrix.Cols | dz1/src/main/java/hr/fer/zemris/apr/math/IMatrix.java:18 | the number of columns, the second dimension of the storage (`data.Length1`) |
| Matrices.Matrix.NumOfRowsSwapped | dz1/src/main/java/hr/fer/zemris/apr/math/IMatrix.java:142 | the swap counter, which only SwapRows raises |
| Matrices.Matrix.IsSquareMatrix | dz1/src/main/java/hr/fer/zemris/apr/math/IMatrix.java:144 | whether the row count equals the column count |
| Matrices.Matrix.constructor | dz1/src/main/java/hr/fer/zemris/apr/math/IMatrix.java:153-160 | a fresh rows-by-cols zero matrix with swap counter 0 |
| Matrices.Matrix.Get | dz1/src/main/java/hr/fer/zemris/apr/math/IMatrix.java:20-28 | in bounds: the entry; out of bounds: OutOfBounds |
| Matrices.Matrix.Set | dz1/src/main/java/hr/fer/zemris/apr/math/IMatrix.java:30-38 | in bounds: exactly that entry changes to the value; out of bounds: OutOfBounds and nothing changes |
| Matrices.Matrix.Add | dz1/src/main/java/hr/fer/zemris/apr/math/IMatrix.java:40-47 | same shape: this becomes old this + other and is returned; otherwise DimensionMismatch and nothing changes |
| Matrices.Matrix.Sub | dz1/src/main/java/hr/fer/zemris/apr/math/IMatrix.java:59-66 | same shape: this becomes old this - other and is returned; otherwise DimensionMismatch and nothing changes |
| Matrices.Matrix.Scalar | dz1/src/main/java/hr/fer/zemris/apr/math/IMatrix.java:78-84 | this becomes x times old this and is returned |
| Matrices.Matrix.NAdd | dz1/src/main/java/hr/fer/zemris/apr/math/IMatrix.java:49-57 | a fresh matrix in fresh storage holding this + other, this unchanged; DimensionMismatch on a shape mismatch |
| Matrices.Matrix.NSub | dz1/src/main/java/hr/fer/zemris/apr/math/IMatrix.java:68-76 | a fresh matrix in fresh storage holding this - other, this unchanged; DimensionMismatch on a shape mismatch |
| Matrices.Matrix.NScalar | dz1/src/main/java/hr/fer/zemris/apr/math/IMatrix.java:86-94 | a fresh matrix in fresh storage holding x times this, this unchanged |
| Matrices.Matrix.Transpose | dz1/src/main/java/hr/fer/zemris/apr/math/IMatrix.java:96-101 | a fresh matrix in fresh storage holding the transpose |
| Matrices.Matrix.Mul | dz1/src/main/java/hr/fer/zemris/apr/math/IMatrix.java:103-111 | a fresh matrix in fresh storage holding the matrix product when the inner sizes agree; otherwise DimensionMismatch |
| Matrices.Matrix.RowTimesColumn | dz1/src/main/java/hr/fer/zemris/apr/math/IMatrix.java:103-111 | the accumulated sum is row i of this times column j of other |
| Matrices.Matrix.Determinant | dz1/src/main/java/hr/fer/zemris/apr/math/IMatrix.java:113-119 | square: the cofactor determinant; otherwise NotSquare |
| Matrices.Matrix.SubMatrix | dz1/src/main/java/hr/fer/zemris/apr/math/IMatrix.java:121-127 | in bounds: a fresh matrix in fresh storage without that row and column; otherwise OutOfBounds |
| Matrices.Matrix.SwapRows | dz1/src/main/java/hr/fer/zemris/apr/math/IMatrix.java:129-142 | in bounds: the rows are exchanged, returns this, and the counter grows by 1 for distinct rows; otherwise OutOfBounds and nothing changes |
| Matrices.Matrix.Copy | dz1/src/main/java/hr/fer/zemris/apr/math/IMatrix.java:146-151 | a fresh matrix with fresh storage and the same entries |
| Matrices.Matrix.NewInstance | dz1/src/main/java/hr/fer/zemris/apr/math/IMatrix.java:153-160 | sizes of at least 1: a fresh zero matrix in fresh storage of that shape; otherwise InvalidSize |
| Matrices.Matrix.Identity | dz1/src/main/java/hr/fer/zemris/apr/math/IMatrix.java:162-167 | a fresh identity matrix of the same shape with counter 0 |
| Views.LUMatrixView.constructor | dz1/src/main/java/hr/fer/zemris/apr/math/LUMatrixView.java:13-16 | the view holds the given matrix reference and kind, with no copy |
| Views.LUMatrixView.Rows | dz1/src/main/java/hr/fer/zemris/apr/math/LUMatrixView.java:19-21 | the row count of the underlying matrix |
| Views.LUMatrixView.Cols | dz1/src/main/java/hr/fer/zemris/apr/math/LUMatrixView.java:24-26 | the column count of the underlying matrix |
| Views.LUMatrixView.IsSquareMatrix | dz1/src/main/java/hr/fer/zemris/apr/math/IMatrix.java:144 | whether the underlying matrix is square |
| Views.LUMatrixView.Get | dz1/src/main/java/hr/fer/zemris/apr/math/LUMatrixView.java:28-38 | L: 1 on the diagonal, the stored entry below it, 0 above; U: the stored entry on and above the diagonal, 0 below; OutOfBounds outside |
| Views.LUMatrixView.Set | dz1/src/main/java/hr/fer/zemris/apr/math/LUMatrixView.java:40-43 | always refused with Unsupported |
| Views.LUMatrixView.SwapRows | dz1/src/main/java/hr/fer/zemris/apr/math/LUMatrixView.java:57-60 | always refused with Unsupported |
| Views.LUMatrixView.Determinant | dz1/src/main/java/hr/fer/zemris/apr/math/LUMatrixView.java:45-55 | non-square: NotSquare; L: 1; U: the product of the stored diagonal; in every square case the cofactor determinant of the view's value |
| Views.LUMatrixView.Copy | dz1/src/main/java/hr/fer/zemris/apr/math/LUMatrixView.java:63-66 | a fresh view of the same kind over the same storage |
| Views.LUMatrixView.NewInstance | dz1/src/main/java/hr/fer/zemris/apr/math/LUMatrixView.java:68-71 | a fresh view of the same kind over a fresh zero matrix in fresh storage; InvalidSize as the underlying matrix reports it |
| Views.UpperViewDeterminant | dz1/src/main/java/hr/fer/zemris/apr/math/LUMatrixView.java:45-55 | the determinant of a square U view is the product of the stored diagonal |
| Views.ValueEntry | dz1/src/main/java/hr/fer/zemris/apr/math/LUMatrixView.java:28-38 | each entry of a view's value is the entry the view shows |
| Factorization.ReconInitial | dz1/src/main/java/hr/fer/zemris/apr/math/MatrixUtils.java:147-148 | before any step the factorization invariant holds for the identity order |
| Factorization.EliminatePreserves | dz1/src/main/java/hr/fer/zemris/apr/math/MatrixUtils.java:164-173 | one elimination step with a nonzero pivot leaves every reconstructed entry unchanged while advancing the step |
| Factorization.EliminateFactors | dz1/src/main/java/hr/fer/zemris/apr/math/MatrixUtils.java:164-173 | the factorization invariant moves from step t to t + 1 |
| Factorization.SwapPreserves | dz1/src/main/java/hr/fer/zemris/apr/math/MatrixUtils.java:161-162 | exchanging two rows at or below the step permutes the reconstructed rows the same way |
| Factorization.SwapFactors | dz1/src/main/java/hr/fer/zemris/apr/math/MatrixUtils.java:161-162 | a swap applied to the matrix and to the row order together keeps the invariant |
| Factorization.ReconProduct | dz1/src/main/java/hr/fer/zemris/apr/math/MatrixUtils.java:175 | after the last step, each reconstructed entry is the entry of L * U |
| Factorization.FactorsProduct | dz1/src/main/java/hr/fer/zemris/apr/math/MatrixUtils.java:175 | after the last step, L * U equals the permutation matrix times the input |
| MatrixUtils.ForwardUpdate | dz1/src/main/java/hr/fer/zemris/apr/math/MatrixUtils.java:96-98 | one update of entry j by the multiplier of column i moves row j from i applied columns to i + 1 and disturbs no other row |
| MatrixUtils.ForwardSolved | dz1/src/main/java/hr/fer/zemris/apr/math/MatrixUtils.java:95-100 | when every row is settled, the unit lower triangle times x is the original b |
| MatrixUtils.ForwardStep | dz1/src/main/java/hr/fer/zemris/apr/math/MatrixUtils.java:96-98 | the inner loop of step i settles row i + 1 and applies column i to every row below it; the other columns stay as they were |
| MatrixUtils.ForwardSweep | dz1/src/main/java/hr/fer/zemris/apr/math/MatrixUtils.java:95-99 | the outer loop settles every row of column 0 and leaves the other columns as they were |
| MatrixUtils.Fs | dz1/src/main/java/hr/fer/zemris/apr/math/MatrixUtils.java:87-101 | NotSquare, then DimensionMismatch, then OutOfBounds for an empty b with two or more rows, each leaving b unchanged; otherwise b is returned, the unit lower triangle of L times the new column 0 is the old column 0, and other columns are untouched |
| MatrixUtils.BackwardUpdate | dz1/src/main/java/hr/fer/zemris/apr/math/MatrixUtils.java:123-126 | writing the solved entry of row i extends the solved rows down to i |
| MatrixUtils.BackwardStep | dz1/src/main/java/hr/fer/zemris/apr/math/MatrixUtils.java:122-127 | step i subtracts the solved entries after i, divides by the diagonal, and leaves row i solved |
| MatrixUtils.Bs | dz1/src/main/java/hr/fer/zemris/apr/math/MatrixUtils.java:114-129 | NotSquare, then DimensionMismatch, then OutOfBounds for an empty y, each leaving y unchanged; otherwise y is returned, the upper triangle of U times the new column 0 is the old column 0, and other columns are untouched |
| MatrixUtils.ScanPivot | dz1/src/main/java/hr/fer/zemris/apr/math/MatrixUtils.java:150-157 | the scan returns the first row from `first` on with the strictly largest magnitude in column i, or row i if none beats it, and that entry |
| MatrixUtils.ScanChoiceUnique | dz1/src/main/java/hr/fer/zemris/apr/math/MatrixUtils.java:150-157 | the scan's choice is determined by the column it scans |
| MatrixUtils.EliminateColumn | dz1/src/main/java/hr/fer/zemris/apr/math/MatrixUtils.java:164-173 | the nested loops store the multipliers in column i and subtract row i from the rows below, giving exactly one Doolittle step |
| MatrixUtils.StuckIsFinal | dz1/src/main/java/hr/fer/zemris/apr/math/MatrixUtils.java:150-160 | a step at which every entry the scan weighs is within the threshold (without pivoting: a zero diagonal entry) has no successor step |
| MatrixUtils.RunExtend | dz1/src/main/java/hr/fer/zemris/apr/math/MatrixUtils.java:148-173 | a run followed by one more step is a run, with that step's pivot appended when pivoting |
| MatrixUtils.PivotsExtend | dz1/src/main/java/hr/fer/zemris/apr/math/MatrixUtils.java:161-162 | one more pivot adds its exchange to the run's row order, and counts as a move exactly when it is not the step's own row |
| MatrixUtils.CountExtends | dz1/src/main/java/hr/fer/zemris/apr/math/MatrixUtils.java:161-162 | a swap counter within its bounds stays within them after one more counted exchange |
| MatrixUtils.Advance | dz1/src/main/java/hr/fer/zemris/apr/math/MatrixUtils.java:148-173 | a step taken after a run extends it, its pivot extends the row order, and both counters stay within their bounds |
| MatrixUtils.SwapKeepsUsable | dz1/src/main/java/hr/fer/zemris/apr/math/MatrixUtils.java:161-162 | a swap at or below row k keeps the first k pivots usable |
| MatrixUtils.EliminateKeepsUsable | dz1/src/main/java/hr/fer/zemris/apr/math/MatrixUtils.java:164-173 | elimination on column i keeps the first i + 1 pivots usable |
| MatrixUtils.RunFactors | dz1/src/main/java/hr/fer/zemris/apr/math/MatrixUtils.java:148-173 | along a run whose pivots lie at or below their steps, the working matrix after k steps factors the input in the row order of the first k pivots, and those pivots are usable |
| MatrixUtils.CompleteRunFactors | dz1/src/main/java/hr/fer/zemris/apr/math/MatrixUtils.java:148-175 | a complete run whose pivots lie at or below their steps ends with L * U equal to P * A0, P a permutation matrix |
| MatrixUtils.CorrectedRunFactors | dz1/src/main/java/hr/fer/zemris/apr/math/MatrixUtils.java:150-157 | with the scan started at the step's own row, every pivot lies at or below its step, so every complete run factors the input |
| MatrixUtils.SmallRunsPivotBelow | dz1/src/main/java/hr/fer/zemris/apr/math/MatrixUtils.java:152 | the scan as written only brings back a finished row from step 2 on, so on at most three rows every pivot lies at or below its step |
| MatrixUtils.PivotStep | dz1/src/main/java/hr/fer/zemris/apr/math/MatrixUtils.java:149-163 | the scan from row 1 chooses p; a chosen entry within the threshold stops the step with nothing changed; otherwise rows p and i are exchanged in A and in P, the row order follows, and each counter grows by one for distinct rows and by at most one otherwise |
| MatrixUtils.EliminationStep | dz1/src/main/java/hr/fer/zemris/apr/math/MatrixUtils.java:164-173 | plain LU stops on a zero pivot with nothing changed; otherwise A becomes one elimination step of old A |
| MatrixUtils.DecompositionStep | dz1/src/main/java/hr/fer/zemris/apr/math/MatrixUtils.java:148-173 | one iteration of the outer loop either takes one step of the scan as written from the old A to the new A, with P and the counters following its exchange, or finds the step stuck and changes nothing |
| MatrixUtils.RunStep | dz1/src/main/java/hr/fer/zemris/apr/math/MatrixUtils.java:148-174 | one iteration extends the run so far by its step and pivot, with P the permutation matrix of the new row order and both counters in bounds, or stops at a stuck step |
| MatrixUtils.Doolittle | dz1/src/main/java/hr/fer/zemris/apr/math/MatrixUtils.java:148-174 | the outer loop's working matrices form a run of the scan as written from the input and end in A; P is the permutation matrix of the run's row order; the run is complete or stops at a stuck step |
| MatrixUtils.Assembled | dz1/src/main/java/hr/fer/zemris/apr/math/MatrixUtils.java:175 | after all steps, L * U equals P * A0 |
| MatrixUtils.UnpivotedProduct | dz1/src/main/java/hr/fer/zemris/apr/math/MatrixUtils.java:175 | without pivoting, L * U equals A0 itself |
| MatrixUtils.AssembleViews | dz1/src/main/java/hr/fer/zemris/apr/math/MatrixUtils.java:175 | the returned L and U are fresh views over A, and P is present only with pivoting; when the pivots lie at or below their steps, L * U is P * A0; without pivoting it is A0 |
| MatrixUtils.LuDecomposition | dz1/src/main/java/hr/fer/zemris/apr/math/MatrixUtils.java:142-176 | NotSquare leaves A and its swap counter; otherwise the working matrices form a run of the scan as written; a failure names the stuck step (SingularPivot, or DivisionByZero without pivoting); success gives fresh views over A and P the permutation matrix of the row order, with L * U == P * A0 whenever the pivots lie at or below their steps (always for LU and on at most three rows), and L * U == A0 without pivoting; with pivoting, on success and on failure alike, A's swap count grows by between the number of steps that moved a row and the number of steps; the last pivot is unchecked |
| MatrixUtils.ExhibitFirstChoices | dz1/src/main/java/hr/fer/zemris/apr/math/MatrixUtils.java:150-157 | on Exhibit, steps 0 and 1 of either scan pick the step's own row |
| MatrixUtils.ExhibitEliminate | dz1/src/main/java/hr/fer/zemris/apr/math/MatrixUtils.java:164-173 | eliminating column 0, 1 or 2 of Exhibit leaves it unchanged |
| MatrixUtils.ExhibitNotStuck | dz1/src/main/java/hr/fer/zemris/apr/math/MatrixUtils.java:158-160 | no scan is stuck at steps 0, 1 or 2 of Exhibit |
| MatrixUtils.ScanFromRowOneBreaksFactors | dz1/src/main/java/hr/fer/zemris/apr/math/MatrixUtils.java:152 | at step 2 of Exhibit the scan from row 1 picks the finished row 1, and after the swap and elimination L * U differs from P * A |
| MatrixUtils.AsWrittenStepOnExhibit | dz1/src/main/java/hr/fer/zemris/apr/math/MatrixUtils.java:150-173 | from Exhibit, steps 0 and 1 of the scan as written keep their rows and change nothing, and step 2 picks row 1 |
| MatrixUtils.CorrectedStepOnExhibit | dz1/src/main/java/hr/fer/zemris/apr/math/MatrixUtils.java:150-173 | from Exhibit, steps 0, 1 and 2 of the corrected scan keep their rows and change nothing |
| MatrixUtils.AsWrittenRunOnExhibit | dz1/src/main/java/hr/fer/zemris/apr/math/MatrixUtils.java:148-175 | every run of the decomposition as written on Exhibit that does not stop early has pivots [0, 1, 1], so a pivot lies above its step, and its L * U is not P * A |
| MatrixUtils.CorrectedRunOnExhibit | dz1/src/main/java/hr/fer/zemris/apr/math/MatrixUtils.java:148-175 | the corrected scan on Exhibit runs with pivots [0, 1, 2] and L * U is Exhibit itself |
| MatrixUtils.LupDeterminant | dz1/src/main/java/hr/fer/zemris/apr/math/MatrixUtils.java:186-188 | (-1)^k times the cofactor determinants of the two views; NotSquare when either is not square |
| UnimodalInterval.Pow2 | dz2/src/main/java/hr/fer/zemris/apr/hw02/optimization/UnimodalInterval.java:43 | each doubling of step stays at least 1 |
| UnimodalInterval.PointsIncrease | dz2/src/main/java/hr/fer/zemris/apr/hw02/optimization/UnimodalInterval.java:43-51 | the points of successive passes move strictly away from x0 on either side |
| UnimodalInterval.Create | dz2/src/main/java/hr/fer/zemris/apr/hw02/optimization/UnimodalInterval.java:24-57 | a bracket answers exactly [x0 - 1, x0 + 1]; every answer has left < mid < right; the rightward and leftward walks answer as RightAnswer and LeftAnswer state; a single leftward pass whose inner point's value exceeds f(x0) happens only after the tie f(x0) == f(x0 + 1) |
| UnimodalInterval.RightWalk | dz2/src/main/java/hr/fer/zemris/apr/hw02/optimization/UnimodalInterval.java:38-45 | after p passes the answer is [x0 + 2^(p-2) (x0 for p = 1), x0 + 2^p] around x0 + 2^(p-1); all earlier passes went on and pass p stopped; f(mid) < f(left) and f(mid) <= f(right); None only if every fuel pass went on |
| UnimodalInterval.LeftWalk | dz2/src/main/java/hr/fer/zemris/apr/hw02/optimization/UnimodalInterval.java:46-54 | the mirror image: f(mid) <= f(left), and f(mid) < f(right) from two passes on; all earlier passes went on and pass p stopped; None only if every fuel pass went on |
| UnimodalInterval.SandwichContainsMinimum | dz2/src/main/java/hr/fer/zemris/apr/hw02/optimization/UnimodalInterval.java:7-23 | an inner point whose value is no higher than at both ends traps the minimizer of a strictly unimodal function |
| UnimodalInterval.AnswerContainsMinimum | dz2/src/main/java/hr/fer/zemris/apr/hw02/optimization/UnimodalInterval.java:24-57 | every answer of Create contains the minimizer of a strictly unimodal function, except a single leftward pass after the tie f(x0) == f(x0 + 1) |
| UnimodalInterval.TieMissesMinimum | dz2/src/main/java/hr/fer/zemris/apr/hw02/optimization/UnimodalInterval.java:36-54 | for f(x) = abs(x - 1/2) from 0, a tie sends the search left, and the only leftward answer for any fuel is [-2, 0], which misses the minimizer |

## Left out

- File and console I/O (`parseFromFile`, `printMatrix`, MatrixUtils.java:28-71) is not modelled.
- dz3/src/main/java/hr/fer/zemris/apr/hw03/optimization/NewtonRaphson.java is not part of this model. It builds on an inversion routine and optimisation classes that this model does not cover.
- Entries are exact `real`s, not IEEE doubles:
  - rounding, infinities and NaN are not modelled;
  - the threshold 1e-9 is the exact rational 1/10^9;
  - `Math.pow(-1, k)` is modelled through the parity of k.
- MatrixUtils.LuDecomposition: a zero pivot in plain LU is reported as DivisionByZero. Java double division would give an infinity or NaN instead, and the catch at MatrixUtils.java:165-169 cannot fire.
- MatrixUtils.Bs: requires a nonzero diagonal in U. The source would divide by zero and produce an infinity.
- MatrixUtils.Fs, MatrixUtils.Bs:
  - the triangular argument is an `LUMatrixView`, the form `luDecomposition` returns; a general matrix argument is not modelled;
  - the vector must not share storage with it.
- MatrixUtils.LupDeterminant: L and U are `LUMatrixView`s, the form `luDecomposition` returns; the source accepts any `IMatrix` (MatrixUtils.java:186), and a general matrix argument is not modelled.
- The concrete `Matrix`/`AbstractMatrix` implementation is not part of this model. The `Matrix` class follows the `IMatrix` contract, with bounds and shape failures as `Err` or `Fail` values instead of exceptions.
- Matrices.Matrix.SwapRows: a row swapped with itself may or may not count toward the swap counter, because the counting rule lives in AbstractMatrix/Matrix, which this model does not cover. So LuDecomposition bounds the counters between the number of pivots that moved a row and the number of steps.
- MatrixUtils.LupDeterminant: states the value in terms of the two views' determinants only. That this equals det(A0) (the product rule for determinants) is not proved.
- MatrixUtils.LuDecomposition: L * U == P * A0 is stated only for runs whose pivots lie at or below their steps. The scan as written can pick a finished row from step 2 on, and then the factorization fails (see Findings); the guard always holds without pivoting and on at most three rows.
- UnimodalInterval.Create: the unbounded do-while loops are bounded by a fuel count, and the answer is None when the fuel runs out while a walk would go on.
- UnimodalInterval.Create: `step` is an unbounded integer, so the Java `int` overflow after 31 doublings is not modelled.
- UnimodalInterval.Create: the 1-by-1 scratch matrix that carries the argument to the function is a calling convention and is not modelled. The objective is a total function on reals.

## Findings

| source | as written | input that shows it | evidently intended | confidence | as-written member | corrected member |
|---|---|---|---|---|---|---|
| dz1/src/main/java/hr/fer/zemris/apr/math/MatrixUtils.java:152 | the pivot scan of step i starts at row 1 (`j = 1`), so from step 2 on it also weighs rows that are already finished | Exhibit = identity with A[1][2] = 5: the scan picks pivots [0, 1, 1], bringing the finished row 1 back at step 2, and afterwards row 2 of L * U is [0, 0, 6, 0] while row 2 of P * A is [0, 1, 5, 0] | the scan starts at row i (`j = i`), so only unfinished rows compete, and L * U == P * A | not executed | MatrixUtils.LuDecomposition, MatrixUtils.AsWrittenRunOnExhibit | MatrixUtils.CorrectedRunFactors, MatrixUtils.CorrectedRunOnExhibit |
