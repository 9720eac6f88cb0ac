/**
 * Bracketing a minimum: starting from x0 with half-width H, either x0 is
 * already lower than both neighbours, or the search walks right (while the
 * function keeps falling to the right) or left, doubling its distance from
 * x0 on every pass. The objective is an arbitrary total function on reals.
 */
module UnimodalInterval {
  import opened Outcomes

  /** The initial half-width and the unit of the doubling step. */
  const H: int := 1

  /** The returned interval [left, right]. */
  datatype Interval = Interval(left: real, right: real)

  function Pow2(k: nat): (p: nat)
    ensures p >= 1
  {
    if k == 0 then 1 else 2 * Pow2(k - 1)
  }

  /** The point x0 + H * 2^j the rightward walk reaches on pass j. */
  function RightPoint(x0: real, j: nat): real {
    x0 + (H * Pow2(j)) as real
  }

  /** The point x0 - H * 2^j the leftward walk reaches on pass j. */
  function LeftPoint(x0: real, j: nat): real {
    x0 - (H * Pow2(j)) as real
  }

  /** x0 is already lower than both of its neighbours at distance H. */
  predicate Bracketed(f: real -> real, x0: real) {
    f(x0) < f(x0 + H as real) && f(x0) < f(x0 - H as real)
  }

  /** Not bracketed, and the function falls from x0 to x0 + H: the search walks right. */
  predicate Rightward(f: real -> real, x0: real) {
    !Bracketed(f, x0) && f(x0) > f(x0 + H as real)
  }

  /** Every other case, ties included: the search walks left. */
  predicate Leftward(f: real -> real, x0: real) {
    !Bracketed(f, x0) && !(f(x0) > f(x0 + H as real))
  }

  /** Pass j of the rightward walk (j >= 1) keeps going: f still falls from x0 + 2^(j-1) to x0 + 2^j. */
  predicate RightContinues(f: real -> real, x0: real, j: nat)
    requires j >= 1
  {
    f(RightPoint(x0, j - 1)) > f(RightPoint(x0, j))
  }

  /** Pass j of the leftward walk (j >= 1) keeps going: f still falls from x0 - 2^(j-1) to x0 - 2^j. */
  predicate LeftContinues(f: real -> real, x0: real, j: nat)
    requires j >= 1
  {
    f(LeftPoint(x0, j - 1)) > f(LeftPoint(x0, j))
  }

  /** f strictly falls up to xs and strictly rises after it. */
  ghost predicate StrictlyUnimodal(f: real -> real, xs: real) {
    (forall a, b :: a < b <= xs ==> f(a) > f(b)) && (forall a, b :: xs <= a < b ==> f(a) < f(b))
  }

  /**
   * The bracketing search. Each pass of a walk costs one unit of fuel; when
   * the fuel runs out while the walk would go on, the answer is None. On an
   * answer, mid is the inner point and passes the number of passes made.
   */
  method Create(f: real -> real, x0: real, fuel: nat)
    returns (res: Option<Interval>, ghost mid: real, ghost passes: nat)
    ensures Bracketed(f, x0) ==> res == Some(Interval(x0 - 1.0, x0 + 1.0)) && mid == x0 && passes == 0
    ensures res.Some? ==> res.value.left < mid < res.value.right
    ensures Rightward(f, x0) ==> RightAnswer(f, x0, fuel, res, mid, passes)
    ensures Leftward(f, x0) ==> LeftAnswer(f, x0, fuel, res, mid, passes)
    ensures Leftward(f, x0) && res.Some? && passes == 1 && f(mid) > f(res.value.right) ==> f(x0) == f(x0 + 1.0)
  {
    var m := x0;
    var l := x0 - H as real;
    var r := x0 + H as real;
    var fm := f(m);
    var fl := f(l);
    var fr := f(r);
    if fm < fr && fm < fl {
      return Some(Interval(l, r)), m, 0;
    } else if fm > fr {
      res, mid, passes := RightWalk(f, x0, fuel, fr);
    } else {
      res, mid, passes := LeftWalk(f, x0, fuel, fl);
    }
  }

  /**
   * What the rightward walk answers: after p passes, the interval runs from
   * the point of pass p - 2 (x0 itself after one pass) to the point of pass
   * p, around the point of pass p - 1; every earlier pass went on and the
   * last one stopped, so f(mid) < f(left) and f(mid) <= f(right). None when
   * all fuel passes went on.
   */
  ghost predicate RightAnswer(f: real -> real, x0: real, fuel: nat, res: Option<Interval>, mid: real, passes: nat) {
    (res.Some? ==>
      1 <= passes <= fuel
      && res.value == Interval(if passes == 1 then x0 else RightPoint(x0, passes - 2), RightPoint(x0, passes))
      && mid == RightPoint(x0, passes - 1)
      && (forall j :: 1 <= j < passes ==> RightContinues(f, x0, j)) && !RightContinues(f, x0, passes)
      && f(mid) < f(res.value.left) && f(mid) <= f(res.value.right))
    && (res.None? ==> forall j :: 1 <= j <= fuel ==> RightContinues(f, x0, j))
  }

  /**
   * What the leftward walk answers, mirrored: f(mid) <= f(left), and
   * f(mid) < f(right) once two or more passes ran; after a single pass the
   * walk compares nothing against x0, the right end.
   */
  ghost predicate LeftAnswer(f: real -> real, x0: real, fuel: nat, res: Option<Interval>, mid: real, passes: nat) {
    (res.Some? ==>
      1 <= passes <= fuel
      && res.value == Interval(LeftPoint(x0, passes), if passes == 1 then x0 else LeftPoint(x0, passes - 2))
      && mid == LeftPoint(x0, passes - 1)
      && (forall j :: 1 <= j < passes ==> LeftContinues(f, x0, j)) && !LeftContinues(f, x0, passes)
      && f(mid) <= f(res.value.left)
      && (passes >= 2 ==> f(mid) < f(res.value.right)))
    && (res.None? ==> forall j :: 1 <= j <= fuel ==> LeftContinues(f, x0, j))
  }

  /** The rightward do-while walk, entered when f(x0) > f(x0 + 1) = fr0. */
  method RightWalk(f: real -> real, x0: real, fuel: nat, fr0: real)
    returns (res: Option<Interval>, ghost mid: real, ghost passes: nat)
    requires fr0 == f(x0 + H as real) && f(x0) > fr0
    ensures res.Some? ==> res.value.left < mid < res.value.right
    ensures RightAnswer(f, x0, fuel, res, mid, passes)
  {
    var m, l, r := x0, x0 - H as real, x0 + H as real;
    var fm, fr := f(x0), fr0;
    var step, k := 1, 0;
    var more := true;
    while more && k < fuel
      invariant k <= fuel && step == Pow2(k) && r == RightPoint(x0, k) && fm == f(m) && fr == f(r)
      invariant k == 0 ==> more && m == x0 && fm > fr
      invariant k >= 1 ==> m == RightPoint(x0, k - 1) && l == if k == 1 then x0 else RightPoint(x0, k - 2)
      invariant k >= 1 ==> (more <==> RightContinues(f, x0, k))
      invariant forall j :: 1 <= j < k ==> RightContinues(f, x0, j)
      invariant k >= 1 ==> f(m) < f(l)
      decreases fuel - k
    {
      l := m;
      m := r;
      fm := fr;
      step := step * 2;
      r := x0 + (H * step) as real;
      fr := f(r);
      k := k + 1;
      more := fm > fr;
    }
    if more {
      return None, m, k;
    }
    PointsIncrease(x0, k);
    res, mid, passes := Some(Interval(l, r)), m, k;
  }

  /** The leftward do-while walk, entered otherwise; fl0 = f(x0 - 1). */
  method LeftWalk(f: real -> real, x0: real, fuel: nat, fl0: real)
    returns (res: Option<Interval>, ghost mid: real, ghost passes: nat)
    requires fl0 == f(x0 - H as real)
    ensures res.Some? ==> res.value.left < mid < res.value.right
    ensures LeftAnswer(f, x0, fuel, res, mid, passes)
  {
    var m, l, r := x0, x0 - H as real, x0 + H as real;
    var fm, fl := f(x0), fl0;
    var step, k := 1, 0;
    var more := true;
    while more && k < fuel
      invariant k <= fuel && step == Pow2(k) && l == LeftPoint(x0, k) && fm == f(m) && fl == f(l)
      invariant k == 0 ==> more && m == x0
      invariant k >= 1 ==> m == LeftPoint(x0, k - 1) && r == if k == 1 then x0 else LeftPoint(x0, k - 2)
      invariant k >= 1 ==> (more <==> LeftContinues(f, x0, k))
      invariant forall j :: 1 <= j < k ==> LeftContinues(f, x0, j)
      invariant k >= 2 ==> f(m) < f(r)
      decreases fuel - k
    {
      r := m;
      m := l;
      fm := fl;
      step := step * 2;
      l := x0 - (H * step) as real;
      fl := f(l);
      k := k + 1;
      more := fm > fl;
    }
    if more {
      return None, m, k;
    }
    PointsIncrease(x0, k);
    res, mid, passes := Some(Interval(l, r)), m, k;
  }

  /** Successive pass points move strictly away from x0, on either side. */
  lemma PointsIncrease(x0: real, k: nat)
    requires k >= 1
    ensures x0 < RightPoint(x0, k - 1) < RightPoint(x0, k) && LeftPoint(x0, k) < LeftPoint(x0, k - 1) < x0
    ensures k >= 2 ==> RightPoint(x0, k - 2) < RightPoint(x0, k - 1) && LeftPoint(x0, k - 1) < LeftPoint(x0, k - 2)
  {
  }

  /**
   * An inner point no higher than both ends traps the minimum of a strictly
   * unimodal function: the minimizer lies in [l, r].
   */
  lemma SandwichContainsMinimum(f: real -> real, xs: real, l: real, m: real, r: real)
    requires StrictlyUnimodal(f, xs) && l < m < r
    requires f(m) <= f(l) && f(m) <= f(r)
    ensures l <= xs <= r
  {
    assert xs < l ==> f(l) < f(m);
    assert r < xs ==> f(m) > f(r);
  }

  /**
   * Every answer Create can give traps the minimizer of a strictly unimodal
   * function, except a single leftward pass after the tie f(x0) == f(x0 + 1):
   * the bracket, every rightward answer and every other leftward answer
   * contain it.
   */
  lemma AnswerContainsMinimum(f: real -> real, x0: real, fuel: nat, xs: real,
                              res: Option<Interval>, mid: real, passes: nat)
    requires StrictlyUnimodal(f, xs) && res.Some? && res.value.left < mid < res.value.right
    requires Bracketed(f, x0) ==> res == Some(Interval(x0 - 1.0, x0 + 1.0)) && mid == x0
    requires Rightward(f, x0) ==> RightAnswer(f, x0, fuel, res, mid, passes)
    requires Leftward(f, x0) ==> LeftAnswer(f, x0, fuel, res, mid, passes)
    requires Leftward(f, x0) && passes == 1 && f(mid) > f(res.value.right) ==> f(x0) == f(x0 + 1.0)
    requires Leftward(f, x0) ==> passes >= 2 || f(x0) != f(x0 + 1.0)
    ensures res.value.left <= xs <= res.value.right
  {
    SandwichContainsMinimum(f, xs, res.value.left, mid, res.value.right);
  }

  /** The tie test function |x - 1/2|: strictly unimodal with minimizer 1/2, and f(0) == f(1). */
  function Tent(x: real): real {
    if x < 0.5 then 0.5 - x else x - 0.5
  }

  /**
   * A tie f(x0) == f(x0 + 1) sends the search left even when the minimizer
   * lies between x0 and x0 + 1. For |x - 1/2| from 0 with any fuel, the first
   * leftward pass stops, so the only answer the leftward walk can give is
   * [-2, 0], which does not contain the minimizer 1/2.
   */
  lemma TieMissesMinimum(fuel: nat, res: Option<Interval>, mid: real, passes: nat)
    requires fuel >= 1 && LeftAnswer(Tent, 0.0, fuel, res, mid, passes)
    ensures StrictlyUnimodal(Tent, 0.5) && Leftward(Tent, 0.0)
    ensures res == Some(Interval(-2.0, 0.0)) && res.value.right < 0.5
  {
    assert Pow2(1) == 2;
    assert LeftPoint(0.0, 0) == -1.0 && LeftPoint(0.0, 1) == -2.0;
    assert !LeftContinues(Tent, 0.0, 1);
  }
}
