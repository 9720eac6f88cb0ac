/**
 * The mathematics of in-place Doolittle elimination. After t elimination
 * steps the square working matrix S holds, in its first t columns below the
 * diagonal, the multipliers of L, and elsewhere the partially reduced U. The
 * product of those two readings, entry by entry, is Recon(S, t, r, c); the
 * elimination step and a row swap below the finished rows both preserve it.
 */
module Factorization {
  import opened LinAlg

  function Min(a: nat, b: nat): nat { if a < b then a else b }

  /** Sum over k < m of S[r][k] * Upper(S)[k][c]: the first m multipliers of row r against finished U rows. */
  function Partial(s: Mat, r: nat, c: nat, m: nat): real
    requires IsSquare(s) && r < |s| && c < |s| && m <= |s|
  {
    Span(s, Upper(s), r, c, 0, m)
  }

  /** Entry (r, c) of the upper factor after t steps: finished rows are upper triangular, the rest is the active block. */
  function Active(s: Mat, t: nat, r: nat, c: nat): real
    requires IsSquare(s) && r < |s| && c < |s|
  {
    if r < t then (if c >= r then s[r][c] else 0.0) else (if c >= t then s[r][c] else 0.0)
  }

  /** Entry (r, c) of L_t * U_t, where L_t is unit lower with the multipliers of the first t columns. */
  function Recon(s: Mat, t: nat, r: nat, c: nat): real
    requires IsSquare(s) && r < |s| && c < |s| && t <= |s|
  {
    Partial(s, r, c, Min(r, t)) + Active(s, t, r, c)
  }

  /** After t steps, the two readings of s multiply to the rows of a0 taken in the order perm. */
  ghost predicate Factors(s: Mat, a0: Mat, perm: seq<nat>, t: nat)
    requires IsSquare(s) && IsMat(a0, |s|, |s|) && IsPermutation(perm, |s|) && t <= |s|
  {
    forall r, c {:trigger Recon(s, t, r, c)} :: 0 <= r < |s| && 0 <= c < |s| ==> Recon(s, t, r, c) == a0[perm[r]][c]
  }

  /**
   * One Doolittle step on column t: each row below t receives its multiplier
   * s[r][t] / s[t][t] in column t, and has that multiple of row t subtracted
   * from its columns right of t.
   */
  function Eliminate(s: Mat, t: nat): (e: Mat)
    requires IsSquare(s) && t < |s| && s[t][t] != 0.0
    ensures IsMat(e, |s|, |s|)
  {
    seq(|s|, r requires 0 <= r < |s| => seq(|s|, c requires 0 <= c < |s| =>
      if r > t && c == t then s[r][t] / s[t][t]
      else if r > t && c > t then s[r][c] - (s[r][t] / s[t][t]) * s[t][c]
      else s[r][c]))
  }

  predicate PivotsAtOrBelow(pivots: seq<nat>) {
    forall t :: 0 <= t < |pivots| ==> pivots[t] >= t
  }

  /** Before any step the reconstruction is the matrix itself. */
  lemma ReconInitial(s: Mat)
    requires IsSquare(s)
    ensures Factors(s, s, Iota(|s|), 0)
  {
  }

  /** Rows before row t and row r's first entries are all Recon(s, t, r, c) reads below the active block. */
  lemma PartialCongruent(s: Mat, r: nat, s2: Mat, r2: nat, c: nat, m: nat)
    requires IsSquare(s) && IsSquare(s2) && |s2| == |s| && r < |s| && r2 < |s| && c < |s| && m <= |s|
    requires forall k :: 0 <= k < m ==> s[r][k] == s2[r2][k] && s[k] == s2[k]
    ensures Partial(s, r, c, m) == Partial(s2, r2, c, m)
  {
    forall k | 0 <= k < m
      ensures Times(s[r][k], Upper(s)[k][c]) == Times(s2[r2][k], Upper(s2)[k][c])
    {
      assert Upper(s)[k][c] == Upper(s2)[k][c];
    }
    SpanCongruent(s, Upper(s), r, s2, Upper(s2), r2, c, 0, m);
  }

  /** One elimination step with a nonzero pivot advances the reconstruction without changing it. */
  lemma EliminatePreserves(s: Mat, t: nat, r: nat, c: nat)
    requires IsSquare(s) && t < |s| && s[t][t] != 0.0 && r < |s| && c < |s|
    ensures IsSquare(Eliminate(s, t)) && Recon(Eliminate(s, t), t + 1, r, c) == Recon(s, t, r, c)
  {
    var e := Eliminate(s, t);
    if r <= t {
      PartialCongruent(e, r, s, r, c, r);
    } else {
      PartialCongruent(e, r, s, r, c, t);
      var m := s[r][t] / s[t][t];
      assert e[r][t] == m;
      assert Upper(e)[t][c] == if c >= t then s[t][c] else 0.0;
      assert Partial(e, r, c, t + 1) == Partial(e, r, c, t) + Times(m, Upper(e)[t][c]);
      if c == t {
        assert m * s[t][t] == s[r][t];
      }
    }
  }

  /** The whole step: the factorization invariant moves from t to t + 1. */
  lemma EliminateFactors(s: Mat, a0: Mat, perm: seq<nat>, t: nat)
    requires IsSquare(s) && IsMat(a0, |s|, |s|) && IsPermutation(perm, |s|) && t < |s| && s[t][t] != 0.0
    requires Factors(s, a0, perm, t)
    ensures IsSquare(Eliminate(s, t)) && Factors(Eliminate(s, t), a0, perm, t + 1)
  {
    forall r, c | 0 <= r < |s| && 0 <= c < |s|
      ensures Recon(Eliminate(s, t), t + 1, r, c) == a0[perm[r]][c]
    {
      EliminatePreserves(s, t, r, c);
    }
  }

  /** Where row r goes when rows x and y are exchanged. */
  function Swapped(r: nat, x: nat, y: nat): nat {
    if r == x then y else if r == y then x else r
  }

  /** Exchanging two rows of the active block permutes the reconstruction's rows the same way. */
  lemma SwapPreserves(s: Mat, t: nat, x: nat, y: nat, r: nat, c: nat)
    requires IsSquare(s) && t <= x < |s| && t <= y < |s| && r < |s| && c < |s|
    ensures IsSquare(SwapRows(s, x, y))
    ensures Recon(SwapRows(s, x, y), t, r, c) == Recon(s, t, Swapped(r, x, y), c)
  {
    var w := SwapRows(s, x, y);
    var r2 := Swapped(r, x, y);
    assert w[r] == s[r2];
    PartialCongruent(w, r, s, r2, c, Min(r, t));
  }

  /** A swap below the finished rows, applied to both the matrix and the row order, keeps the invariant. */
  lemma SwapFactors(s: Mat, a0: Mat, perm: seq<nat>, t: nat, x: nat, y: nat)
    requires IsSquare(s) && IsMat(a0, |s|, |s|) && IsPermutation(perm, |s|) && t <= x < |s| && t <= y < |s|
    requires Factors(s, a0, perm, t)
    ensures IsSquare(SwapRows(s, x, y)) && IsPermutation(SwapRows(perm, x, y), |s|)
    ensures Factors(SwapRows(s, x, y), a0, SwapRows(perm, x, y), t)
  {
    SwapPermutation(perm, |s|, x, y);
    var p2 := SwapRows(perm, x, y);
    forall r, c | 0 <= r < |s| && 0 <= c < |s|
      ensures Recon(SwapRows(s, x, y), t, r, c) == a0[p2[r]][c]
    {
      SwapPreserves(s, t, x, y, r, c);
      assert p2[r] == perm[Swapped(r, x, y)];
    }
  }

  /** After the last step, the reconstruction is the product of the L and U readings. */
  lemma ReconProduct(s: Mat, r: nat, c: nat)
    requires IsSquare(s) && r < |s| && c < |s|
    ensures Span(UnitLower(s), Upper(s), r, c, 0, |s|) == Recon(s, |s| - 1, r, c)
  {
    var n := |s|;
    var l, u := UnitLower(s), Upper(s);
    SpanSplit(l, u, r, c, 0, r, n);
    SpanSplit(l, u, r, c, r, r + 1, n);
    SpanZero(l, u, r, c, r + 1, n);
    forall k | 0 <= k < r
      ensures Times(l[r][k], u[k][c]) == Times(s[r][k], u[k][c])
    {
    }
    SpanCongruent(l, u, r, s, u, r, c, 0, r);
  }

  /** When all steps have run, L * U equals the rows of a0 in the order perm. */
  lemma FactorsProduct(s: Mat, a0: Mat, perm: seq<nat>)
    requires IsSquare(s) && |s| > 0 && IsMat(a0, |s|, |s|) && IsPermutation(perm, |s|)
    requires Factors(s, a0, perm, |s| - 1)
    ensures IsSquare(UnitLower(s)) && IsSquare(Upper(s))
    ensures Mul(UnitLower(s), Upper(s), |s|, |s|, |s|) == Mul(PermMatrix(perm, |s|), a0, |s|, |s|, |s|)
  {
    var n := |s|;
    var lu := Mul(UnitLower(s), Upper(s), n, n, n);
    MulPermMatrix(perm, a0, n, n);
    forall r, c | 0 <= r < n && 0 <= c < n
      ensures lu[r][c] == PermuteRows(a0, perm)[r][c]
    {
      ReconProduct(s, r, c);
    }
    MatEq(lu, PermuteRows(a0, perm), n, n);
  }
}
