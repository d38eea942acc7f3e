/** `scalarMultiply`: the projective loop refines affine double-and-add, which in turn is repeated addition. */
module ScalarMul {
  import opened Wrappers
  import opened NumberTheory
  import opened Edwards

  // ----- reference definitions, on affine points only -----

  /** Affine addition of two results; an error in either operand is passed on. */
  function Plus(c: Curve, P: Result<Point>, Q: Result<Point>): Result<Point>
    requires 1 < c.p
  {
    if P.Err? then P else if Q.Err? then Q else PointAdd(c, P.value, Q.value)
  }

  /** Double-and-add with `pointAdd` alone, least significant bit first. */
  function DoubleAndAdd(c: Curve, k: nat, acc: Result<Point>, P: Result<Point>): Result<Point>
    requires 1 < c.p
  {
    if k == 0 then acc
    else DoubleAndAdd(c, k / 2, if k % 2 == 1 then Plus(c, acc, P) else acc, Plus(c, P, P))
  }

  /** `k` copies of `P` added one after the other. */
  function Times(c: Curve, k: nat, P: Point): Result<Point>
    requires 1 < c.p
  {
    if k == 0 then Ok(IDENTITY) else Plus(c, Times(c, k - 1, P), Ok(P))
  }

  // ----- the loop -----

  ghost predicate Good(c: Curve, P: Result<Point>)
    requires 0 < c.p
  {
    P.Ok? && Canonical(c, P.value) && OnCurve(c, P.value)
  }

  lemma PlusGood(c: Curve, P: Result<Point>, Q: Result<Point>)
    requires ValidCurve(c) && Good(c, P) && Good(c, Q)
    ensures Good(c, Plus(c, P, Q))
  {
    PointAddTotal(c, P.value, Q.value);
  }

  /** The values the loop variables `result` and `addend` run through, for any input point. */
  function ExtendedLoop(c: Curve, k: nat, result: Extended, addend: Extended): Extended
    requires 0 < c.p
  {
    if k == 0 then result
    else ExtendedLoop(c, k / 2, if k % 2 == 1 then ExtendedAdd(c, result, addend) else result, ExtendedDouble(c, addend))
  }

  /** One iteration keeps both loop variables on the curve and in step with the affine loop. */
  lemma LoopStep(c: Curve, result: Extended, addend: Extended, acc: Result<Point>, P: Result<Point>)
    requires ValidCurve(c) && Good(c, acc) && Good(c, P)
    requires Represents(c, result, acc.value) && Represents(c, addend, P.value)
    ensures Good(c, Plus(c, acc, P)) && Represents(c, ExtendedAdd(c, result, addend), Plus(c, acc, P).value)
    ensures Good(c, Plus(c, P, P)) && Represents(c, ExtendedDouble(c, addend), Plus(c, P, P).value)
  {
    hide Represents, PointAdd, Cross, ExtendedAdd, ExtendedDouble, OnCurve, IsSum, Regular;
    PointAddTotal(c, acc.value, P.value);
    PointAddTotal(c, P.value, P.value);
    CurveIsRegular(c, acc.value, P.value);
    CurveIsRegular(c, P.value, P.value);
    ExtendedAddCorrect(c, result, addend, acc.value, P.value, Plus(c, acc, P).value);
    ExtendedDoubleCorrect(c, addend, P.value, Plus(c, P, P).value);
  }

  method ScalarMultiply(c: Curve, point: Point, scalar: int) returns (r: Result<Point>)
    requires OddField(c)
    ensures scalar < 0 ==> r == Err(NegativeScalar)
    ensures scalar >= 0 ==> r == AffinePoint(c, ExtendedLoop(c, scalar, EXTENDED_IDENTITY, ExtendedPoint(c, point)))
    ensures scalar >= 0 && ValidCurve(c) && OnCurve(c, point) ==>
              Good(c, r) && r == DoubleAndAdd(c, scalar, Ok(IDENTITY), Ok(Reduce(c, point)))
  {
    hide Represents, PointAdd, ExtendedAdd, ExtendedDouble, OnCurve, Canonical, Reduce, ExtendedPoint, AffinePoint;
    if scalar < 0 {
      return Err(NegativeScalar);
    }
    var k := scalar;
    var result := EXTENDED_IDENTITY;
    var addend := ExtendedPoint(c, point);
    ghost var acc, P := Ok(IDENTITY), Ok(Reduce(c, point));
    ghost var valid := ValidCurve(c) && OnCurve(c, point);
    RepresentStart(c, point);
    IdentityOnCurve(c);
    if valid { ReduceOnCurve(c, point); }
    while k > 0
      invariant k >= 0
      invariant ExtendedLoop(c, k, result, addend) == ExtendedLoop(c, scalar, EXTENDED_IDENTITY, ExtendedPoint(c, point))
      invariant valid ==> Good(c, acc) && Represents(c, result, acc.value)
      invariant valid ==> Good(c, P) && Represents(c, addend, P.value)
      invariant DoubleAndAdd(c, k, acc, P) == DoubleAndAdd(c, scalar, Ok(IDENTITY), Ok(Reduce(c, point)))
    {
      if valid { LoopStep(c, result, addend, acc, P); }
      if k % 2 == 1 {
        result, acc := ExtendedAdd(c, result, addend), Plus(c, acc, P);
      }
      addend, P := ExtendedDouble(c, addend), Plus(c, P, P);
      k := k / 2;
    }
    if valid {
      AffineOfRepresented(c, result, acc.value);
      ReduceCanonical(c, acc.value);
    }
    r := AffinePoint(c, result);
  }

  lemma ReduceCanonical(c: Curve, P: Point)
    requires 0 < c.p && Canonical(c, P)
    ensures Reduce(c, P) == P
  {
    DivModUnique(P.x, 0, P.x, c.p);
    DivModUnique(P.y, 0, P.y, c.p);
  }

  // ----- the same result as a function, for use in other specifications -----

  /** The affine point the method returns for an on-curve argument. */
  function Multiply(c: Curve, k: nat, P: Point): Result<Point>
    requires 1 < c.p
  {
    DoubleAndAdd(c, k, Ok(IDENTITY), Ok(Reduce(c, P)))
  }

  lemma {:induction false} DoubleAndAddGood(c: Curve, k: nat, acc: Result<Point>, P: Result<Point>)
    requires ValidCurve(c) && Good(c, acc) && Good(c, P)
    ensures Good(c, DoubleAndAdd(c, k, acc, P))
  {
    if k > 0 {
      hide Good;
      PlusGood(c, acc, P);
      PlusGood(c, P, P);
      DoubleAndAddGood(c, k / 2, if k % 2 == 1 then Plus(c, acc, P) else acc, Plus(c, P, P));
    }
  }

  lemma MultiplyGood(c: Curve, k: nat, P: Point)
    requires ValidCurve(c) && OnCurve(c, P)
    ensures Good(c, Multiply(c, k, P))
  {
    IdentityOnCurve(c);
    ReduceOnCurve(c, P);
    DoubleAndAddGood(c, k, Ok(IDENTITY), Ok(Reduce(c, P)));
  }

  // ----- with associativity, double-and-add is repeated addition -----

  /** The one group axiom that is assumed rather than proved. */
  ghost predicate Associative(c: Curve)
    requires 1 < c.p
  {
    forall P, Q, R ::
      Good(c, P) && Good(c, Q) && Good(c, R) ==> Plus(c, Plus(c, P, Q), R) == Plus(c, P, Plus(c, Q, R))
  }

  ghost predicate Group(c: Curve) {
    ValidCurve(c) && Associative(c)
  }

  lemma PlusCommutes(c: Curve, P: Result<Point>, Q: Result<Point>)
    requires ValidCurve(c) && Good(c, P) && Good(c, Q)
    ensures Plus(c, P, Q) == Plus(c, Q, P)
  {
    PointAddCommutes(c, P.value, Q.value);
  }

  lemma PlusIdentity(c: Curve, P: Result<Point>)
    requires ValidCurve(c) && Good(c, P)
    ensures Good(c, Ok(IDENTITY)) && Plus(c, P, Ok(IDENTITY)) == P && Plus(c, Ok(IDENTITY), P) == P
  {
    IdentityOnCurve(c);
    PointAddIdentity(c, P.value);
    ReduceCanonical(c, P.value);
  }

  lemma {:induction false} TimesGood(c: Curve, k: nat, P: Point)
    requires ValidCurve(c) && Good(c, Ok(P))
    ensures Good(c, Times(c, k, P))
  {
    IdentityOnCurve(c);
    if k > 0 {
      TimesGood(c, k - 1, P);
      PlusGood(c, Times(c, k - 1, P), Ok(P));
    }
  }

  lemma {:induction false} TimesAdd(c: Curve, j: nat, k: nat, P: Point)
    requires Group(c) && Good(c, Ok(P))
    ensures Times(c, j + k, P) == Plus(c, Times(c, j, P), Times(c, k, P))
  {
    hide Good, PointAdd;
    TimesGood(c, j, P);
    if k == 0 {
      PlusIdentity(c, Times(c, j, P));
    } else {
      TimesAdd(c, j, k - 1, P);
      TimesGood(c, k - 1, P);
      assert Times(c, j + k, P) == Plus(c, Times(c, j + (k - 1), P), Ok(P));
    }
  }

  lemma {:induction false} TimesTimes(c: Curve, j: nat, k: nat, P: Point)
    requires Group(c) && Good(c, Ok(P))
    ensures Good(c, Times(c, k, P)) && 0 <= j * k && Times(c, j, Times(c, k, P).value) == Times(c, j * k, P)
  {
    hide PointAdd, Plus, ValidCurve, Associative, OnCurve;
    TimesGood(c, k, P);
    if j > 0 {
      TimesTimes(c, j - 1, k, P);
      assert j * k == (j - 1) * k + k;
      TimesAdd(c, (j - 1) * k, k, P);
    } else {
      assert j * k == 0;
    }
  }

  /** Multiplying by `j` and then `k` is independent of the order. */
  lemma TimesCommute(c: Curve, j: nat, k: nat, P: Point)
    requires Group(c) && Good(c, Ok(P))
    ensures Good(c, Times(c, k, P)) && Good(c, Times(c, j, P))
    ensures Times(c, j, Times(c, k, P).value) == Times(c, k, Times(c, j, P).value)
  {
    TimesTimes(c, j, k, P);
    TimesTimes(c, k, j, P);
    assert j * k == k * j;
  }

  /** The doubled base: `k` copies of `P + P` are `2k` copies of `P`. */
  lemma TimesDouble(c: Curve, k: nat, P: Point)
    requires Group(c) && Good(c, Ok(P))
    ensures Good(c, Plus(c, Ok(P), Ok(P))) && Times(c, k, Plus(c, Ok(P), Ok(P)).value) == Times(c, 2 * k, P)
  {
    hide PointAdd, ValidCurve, OnCurve;
    PlusIdentity(c, Ok(P));
    assert Times(c, 1, P) == Plus(c, Times(c, 0, P), Ok(P)) == Ok(P);
    assert Times(c, 2, P) == Plus(c, Times(c, 1, P), Ok(P));
    TimesTimes(c, k, 2, P);
  }

  lemma GroupValid(c: Curve)
    requires Group(c)
    ensures ValidCurve(c) && 1 < c.p
  {
  }

  lemma Regroup(c: Curve, A: Result<Point>, P: Result<Point>, T: Result<Point>)
    requires Group(c) && Good(c, A) && Good(c, P) && Good(c, T)
    ensures Plus(c, Plus(c, A, P), T) == Plus(c, A, Plus(c, T, P))
  {
    PlusCommutes(c, P, T);
  }

  lemma {:induction false} DoubleAndAddIsTimes(c: Curve, k: nat, acc: Result<Point>, P: Result<Point>)
    requires Group(c) && Good(c, acc) && Good(c, P)
    ensures DoubleAndAdd(c, k, acc, P) == Plus(c, acc, Times(c, k, P.value))
    decreases k
  {
    hide Group, ValidCurve, PointAdd, Plus, Canonical, OnCurve;
    GroupValid(c);
    if k == 0 {
      PlusIdentity(c, acc);
    } else {
      var h, D, acc' := k / 2, Plus(c, P, P), if k % 2 == 1 then Plus(c, acc, P) else acc;
      TimesDouble(c, h, P.value);
      TimesGood(c, 2 * h, P.value);
      PlusGood(c, acc, P);
      Regroup(c, acc, P, Times(c, 2 * h, P.value));
      DoubleAndAddIsTimes(c, h, acc', D);
    }
  }

  /** `scalarMultiply(P, k)` is `k` times `P` in the group. */
  lemma MultiplyIsTimes(c: Curve, k: nat, P: Point)
    requires Group(c) && OnCurve(c, P)
    ensures Multiply(c, k, P) == Times(c, k, Reduce(c, P))
  {
    var R := Reduce(c, P);
    ReduceOnCurve(c, P);
    IdentityOnCurve(c);
    DoubleAndAddIsTimes(c, k, Ok(IDENTITY), Ok(R));
    TimesGood(c, k, R);
    PlusIdentity(c, Times(c, k, R));
  }
}
