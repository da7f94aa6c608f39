/** `JacobianPoint.double` of libtls13/script/generate-ec-test-data.py
    (lines 325-338) against `PointOps.double` and `Point.__add__` (lines
    220-221, 262-281): on a curve with a = -3 over an odd prime field,
    "dbl-2001-b" maps a point with y != 0 to the affine tangent sum, and a
    point with y = 0 to the identity, where the affine doubling raises. */
module JacobianDouble {
  import opened Results
  import opened Modular
  import opened FieldElements
  import opened Curves
  import opened Jacobian
  import opened JacobianAlgebra
  import opened JacobianLaw

  /** A valid Jacobian point over an odd prime field whose curve has
      a = -3, the case "dbl-2001-b" is written for. */
  ghost predicate MinusThree(J: JPoint)
  {
    ValidJ(J) && IsPrime(J.curve.field.p) && J.curve.field.p % 2 == 1
    && Divides(J.curve.field.p, J.curve.a.x + 3)
  }

  // ---------------------------------------------------------------------
  // "dbl-2001-b" step by step, for J = (x z^2, y z^3, z) and
  // Zs = 2 y z^4.

  /** alpha = 3 (X - Z^2)(X + Z^2) = s Zs, for the tangent slope s. */
  lemma StepAlpha(J: JPoint, p: int, x: int, y: int, z: int, s: int)
    requires MinusThree(J) && p == J.curve.field.p && z == J.z.x
    requires Divides(p, x * (z * z) - J.x.x)
    requires Divides(p, s * (2 * y) - (3 * x * x + J.curve.a.x))
    ensures Divides(p, s * (2 * y * (z * z * z * z)) - DblAlpha(J).x)
  {
    var delta := DblDelta(J);
    var m, c3 := Minus(J.x, delta), Const(J.x.field, 3);
    var mc, pl := Times(m, c3), Plus(J.x, delta);
    SquareOf(J.z);
    DoubleAlpha(p, x, J.x.x, z, delta.x, m.x, c3.x, mc.x, pl.x, DblAlpha(J).x, s, y, J.curve.a.x);
  }

  /** gamma = Y^2 = y^2 z^6 and beta = X gamma = x y^2 z^8. */
  lemma StepBeta(J: JPoint, p: int, x: int, y: int, z: int)
    requires ValidJ(J) && p == J.curve.field.p && p > 0 && z == J.z.x
    requires Divides(p, x * (z * z) - J.x.x) && Divides(p, y * (z * z * z) - J.y.x)
    ensures Divides(p, (y * y) * (z * z * z * z * z * z) - DblGamma(J).x)
    ensures Divides(p, x * (y * y) * (z * z * z * z * z * z * z * z) - DblBeta(J).x)
  {
    SquareOf(J.y);
    DoubleBeta(p, x, J.x.x, y, J.y.x, z, DblGamma(J).x, DblBeta(J).x);
  }

  /** Z3 = (Y + Z)^2 - Y^2 - Z^2 = 2 Y Z = 2 y z^4. */
  lemma StepZ3(J: JPoint, p: int, y: int, z: int)
    requires ValidJ(J) && p == J.curve.field.p && p > 0 && z == J.z.x
    requires Divides(p, y * (z * z * z) - J.y.x)
    ensures Divides(p, 2 * y * (z * z * z * z) - DblZ3(J).x)
  {
    var S := Plus(J.y, J.z);
    var q, g, d := Power(S, 2), Power(J.y, 2), Power(J.z, 2);
    var m1 := Minus(q, g);
    SquareOf(S);
    SquareOf(J.y);
    SquareOf(J.z);
    TwiceProduct(p, J.y.x, z, S.x, q.x, g.x, d.x, m1.x, DblZ3(J).x);
    DoubleZ3(p, y, J.y.x, z, DblZ3(J).x);
  }

  /** X3 = alpha^2 - 8 beta = x3 Zs^2. */
  lemma StepX3(J: JPoint, p: int, s: int, x: int, x3: int, y: int, z: int, Zs: int)
    requires ValidJ(J) && p == J.curve.field.p && p > 0 && Zs == 2 * y * (z * z * z * z)
    requires Divides(p, s * Zs - DblAlpha(J).x)
    requires Divides(p, x * (y * y) * (z * z * z * z * z * z * z * z) - DblBeta(J).x)
    requires Divides(p, x3 - (s * s - x - x))
    ensures Divides(p, x3 * (Zs * Zs) - DblX3(J).x)
  {
    XDouble(DblAlpha(J), DblBeta(J), p, s, x, x3, y, z, Zs);
  }

  /** alpha^2 - 8 beta = x3 Zs^2 for alpha = s Zs and beta = x y^2 z^8. */
  lemma XDouble(alpha: Elem, beta: Elem, p: int, s: int, x: int, x3: int, y: int, z: int, Zs: int)
    requires p == alpha.field.p && p == beta.field.p && p > 0 && Zs == 2 * y * (z * z * z * z)
    requires Divides(p, s * Zs - alpha.x)
    requires Divides(p, x * (y * y) * (z * z * z * z * z * z * z * z) - beta.x)
    requires Divides(p, x3 - (s * s - x - x))
    ensures Divides(p, x3 * (Zs * Zs) - Minus(Power(alpha, 2), Times(beta, Const(beta.field, 8))).x)
  {
    var a2, c8 := Power(alpha, 2), Const(beta.field, 8);
    var b8 := Times(beta, c8);
    SquareOf(alpha);
    DoubleX3(p, s, x, x3, y, z, Zs, alpha.x, a2.x, beta.x, c8.x, b8.x, Minus(a2, b8).x);
  }

  /** Y3 = alpha (4 beta - X3) - 8 gamma^2 = y3 Zs^3. */
  lemma StepY3(J: JPoint, p: int, s: int, x: int, x3: int, y: int, y3: int, z: int, Zs: int)
    requires ValidJ(J) && p == J.curve.field.p && p > 0 && Zs == 2 * y * (z * z * z * z)
    requires Divides(p, s * Zs - DblAlpha(J).x)
    requires Divides(p, (y * y) * (z * z * z * z * z * z) - DblGamma(J).x)
    requires Divides(p, x * (y * y) * (z * z * z * z * z * z * z * z) - DblBeta(J).x)
    requires Divides(p, x3 * (Zs * Zs) - DblX3(J).x)
    requires Divides(p, y3 - (-y + s * (x - x3)))
    ensures Divides(p, y3 * (Zs * Zs * Zs) - DblY3(J).x)
  {
    YDouble(DblAlpha(J), DblBeta(J), DblGamma(J), DblX3(J), p, s, x, x3, y, y3, z, Zs);
  }

  /** alpha (4 beta - X3) - 8 gamma^2 = y3 Zs^3, with the values of
      `XDouble` and gamma = y^2 z^6. */
  lemma YDouble(alpha: Elem, beta: Elem, gamma: Elem, X3: Elem, p: int, s: int, x: int, x3: int,
                y: int, y3: int, z: int, Zs: int)
    requires p == alpha.field.p && p == beta.field.p && p == gamma.field.p && p > 0
    requires Zs == 2 * y * (z * z * z * z)
    requires Divides(p, s * Zs - alpha.x)
    requires Divides(p, (y * y) * (z * z * z * z * z * z) - gamma.x)
    requires Divides(p, x * (y * y) * (z * z * z * z * z * z * z * z) - beta.x)
    requires Divides(p, x3 * (Zs * Zs) - X3.x)
    requires Divides(p, y3 - (-y + s * (x - x3)))
    ensures Divides(p, y3 * (Zs * Zs * Zs)
      - Minus(Times(alpha, Minus(Times(beta, Const(beta.field, 4)), X3)),
              Times(Power(gamma, 2), Const(gamma.field, 8))).x)
  {
    var c4, c8 := Const(beta.field, 4), Const(gamma.field, 8);
    var b4 := Times(beta, c4);
    var e := Minus(b4, X3);
    var ae, g2 := Times(alpha, e), Power(gamma, 2);
    var g8 := Times(g2, c8);
    SquareOf(gamma);
    DoubleY3(p, s, x, x3, y, y3, z, Zs, alpha.x, beta.x, c4.x, b4.x, X3.x, e.x, ae.x,
      gamma.x, g2.x, c8.x, g8.x, Minus(ae, g8).x);
  }

  /** z^4 is invertible when z is. */
  lemma FourthNonZero(p: int, z: int)
    requires IsPrime(p) && !Divides(p, z)
    ensures !Divides(p, z * z * z * z)
  {
    ProductNonZero(p, z, z);
    ProductNonZero(p, z * z, z);
    ProductNonZero(p, z * z * z, z);
  }

  // ---------------------------------------------------------------------
  // The two sides.

  /** The affine data of the doubling, as congruences modulo p: J scales
      (x, y) by its Z, both invertible, s is the tangent slope and (x3, y3)
      the third point. */
  ghost predicate DoubleData(J: JPoint, x: int, y: int, s: int, x3: int, y3: int)
  {
    var p, z := J.curve.field.p, J.z.x;
    !Divides(p, z) && !Divides(p, y)
    && Divides(p, x * (z * z) - J.x.x) && Divides(p, y * (z * z * z) - J.y.x)
    && Divides(p, s * (2 * y) - (3 * x * x + J.curve.a.x))
    && Divides(p, x3 - (s * s - x - x)) && Divides(p, y3 - (-y + s * (x - x3)))
  }

  /** "dbl-2001-b" on a point with affine coordinates (x, y), y != 0: the
      double is (x3 Zs^2, y3 Zs^3, Zs) for the tangent's third point
      (x3, y3), with Zs = 2 y z^4. */
  lemma DoubleJacobian(J: JPoint, p: int, x: int, y: int, z: int, s: int, x3: int, y3: int, Zs: int)
    requires MinusThree(J) && p == J.curve.field.p && z == J.z.x && DoubleData(J, x, y, s, x3, y3)
    requires Zs == 2 * y * (z * z * z * z)
    ensures ValidJ(JDouble(J)) && ScaledBy(JDouble(J), p, x3, y3, Zs)
  {
    StepAlpha(J, p, x, y, z, s);
    StepBeta(J, p, x, y, z);
    StepZ3(J, p, y, z);
    StepX3(J, p, s, x, x3, y, z, Zs);
    StepY3(J, p, s, x, x3, y, y3, z, Zs);
    FourthNonZero(p, z);
    TwiceProductNonZero(p, y, z * z * z * z);
    assert JDouble(J) == JPoint(DblX3(J), DblY3(J), DblZ3(J), J.curve);
    ScaledByParts(JDouble(J), p, x3, y3, Zs, DblX3(J).x, DblY3(J).x, DblZ3(J).x);
  }

  /** The affine side: the affine image (x, y) of J, the tangent slope s
      and the point R = (x3, y3) that `PointOps.double` returns. */
  lemma DoubleInputs(J: JPoint) returns (x: int, y: int, s: int, x3: int, y3: int, R: Point)
    requires MinusThree(J) && !IsZero(J) && ToAffine(J).Ok? && ToAffine(J).value.y.x != 0
    ensures Double(ToAffine(J).value) == Ok(R)
    ensures ValidPoint(R) && !R.zero && R.curve == J.curve && x3 == R.x.x && y3 == R.y.x
    ensures DoubleData(J, x, y, s, x3, y3)
  {
    ToAffineOk(J);
    var A := ToAffine(J).value;
    x, y := A.x.x, A.y.x;
    Scaled(J, x, y);
    NonZeroResidue(J.z);
    NonZeroResidue(A.y);
    var e;
    e, s := TangentOf(A);
    R, x3, y3 := ThirdOf(A, A, e, J.curve.field.p, x, y, x, s);
    TangentAdd(A, e, R);
  }

  /** The tangent slope of a point with y != 0. */
  lemma TangentOf(A: Point) returns (e: Elem, s: int)
    requires ValidPoint(A) && IsPrime(A.curve.field.p) && A.curve.field.p % 2 == 1 && A.y.x != 0
    ensures TangentSlope(A) == Ok(e) && Canonical(e) && e.field == A.curve.field && s == e.x
    ensures Divides(A.curve.field.p, s * (2 * A.y.x) - (3 * A.x.x * A.x.x + A.curve.a.x))
  {
    TangentSlopeSpec(A);
    e := TangentSlope(A).value;
    s := e.x;
  }

  /** `Point.__add__` of a point and itself takes the tangent branch. */
  lemma TangentAdd(A: Point, e: Elem, R: Point)
    requires ValidPoint(A) && !A.zero && TangentSlope(A) == Ok(e) && R == Third(A, A, e)
    ensures Double(A) == Ok(R)
  {
    EqualSpec(A.x, A.x);
    EqualSpec(A.y, A.y);
    DividesZero(A.curve.field.p);
  }

  /** On a curve with a = -3, the Jacobian double of a non-zero point with
      affine y != 0 is the affine double. */
  lemma DoubleCase(J: JPoint)
    requires MinusThree(J) && !IsZero(J) && ToAffine(J).Ok? && ToAffine(J).value.y.x != 0
    ensures Double(ToAffine(J).value).Ok?
    ensures ToAffine(JDouble(J)) == Double(ToAffine(J).value)
  {
    var x, y, s, x3, y3, R := DoubleInputs(J);
    var p, z := J.curve.field.p, J.z.x;
    var Zs := 2 * y * (z * z * z * z);
    DoubleJacobian(J, p, x, y, z, s, x3, y3, Zs);
    FromScaled(JDouble(J), R, p, x3, y3, Zs);
  }

  /** A point with affine y = 0 has order two: "dbl-2001-b" gives
      Z3 = 2 Y Z = 0, the identity, while the affine doubling divides by
      2y = 0 and raises. */
  lemma DoubleTwoTorsion(J: JPoint)
    requires ValidJ(J) && IsPrime(J.curve.field.p) && J.curve.field.p % 2 == 1 && !IsZero(J)
    requires ToAffine(J).Ok? && ToAffine(J).value.y.x == 0
    ensures IsZero(JDouble(J))
    ensures Double(ToAffine(J).value) == Err(NotInvertible(0))
  {
    var p, z := J.curve.field.p, J.z.x;
    ToAffineOk(J);
    var A := ToAffine(J).value;
    Scaled(J, A.x.x, 0);
    assert 0 * (z * z * z) - J.y.x == -J.y.x;
    DividesSum(p, -J.y.x, 0) by { DividesZero(p); }
    ZeroResidue(J.y);
    DoubleZ(J);
    assert JDouble(J).z.x - 2 * J.y.x * J.z.x == JDouble(J).z.x;
    ZeroResidue(JDouble(J).z);
    AddErrors(A, A);
  }

  // ---------------------------------------------------------------------
  // The whole law: `JacobianPoint.__add__` against `Point.__add__`.

  /** Two non-zero points with the same affine x give U1 = U2, and S1 = S2
      exactly when their affine y agree too. */
  lemma SameX(P: JPoint, Q: JPoint)
    requires OddPrimePair(P, Q) && !IsZero(P) && !IsZero(Q) && ToAffine(P).Ok? && ToAffine(Q).Ok?
    requires ToAffine(P).value.x == ToAffine(Q).value.x
    ensures Equal(AddU1(P, Q), AddU2(P, Q))
    ensures Equal(AddS1(P, Q), AddS2(P, Q)) <==> ToAffine(P).value.y == ToAffine(Q).value.y
  {
    var p := P.curve.field.p;
    var x1, y1, x2, y2, W := ScaledPair(P, Q);
    ScaledEqual(p, AddU1(P, Q), AddU2(P, Q), x1, x2, W * W);
    ScaledEqual(p, AddS1(P, Q), AddS2(P, Q), y1, y2, W * W * W);
    DividesZero(p);
    if y1 != y2 {
      DistinctElems(ToAffine(P).value.y, ToAffine(Q).value.y);
    }
  }

  /** U1, U2, S1 and S2 scale the affine coordinates by W^2 and W^3, for
      W = Z1 Z2 invertible. */
  lemma ScaledPair(P: JPoint, Q: JPoint) returns (x1: int, y1: int, x2: int, y2: int, W: int)
    requires OddPrimePair(P, Q) && !IsZero(P) && !IsZero(Q) && ToAffine(P).Ok? && ToAffine(Q).Ok?
    ensures x1 == ToAffine(P).value.x.x && y1 == ToAffine(P).value.y.x
    ensures x2 == ToAffine(Q).value.x.x && y2 == ToAffine(Q).value.y.x
    ensures ScalesBy(P.curve.field.p, AddU1(P, Q), AddU2(P, Q), x1, x2, W * W)
    ensures ScalesBy(P.curve.field.p, AddS1(P, Q), AddS2(P, Q), y1, y2, W * W * W)
  {
    var p := P.curve.field.p;
    x1, y1 := ToAffine(P).value.x.x, ToAffine(P).value.y.x;
    x2, y2 := ToAffine(Q).value.x.x, ToAffine(Q).value.y.x;
    Scaled(P, x1, y1);
    Scaled(Q, x2, y2);
    W := P.z.x * Q.z.x;
    StepU(P, Q, x1, x2, W);
    StepS(P, Q, y1, y2, W);
    NonZeroResidue(P.z);
    NonZeroResidue(Q.z);
    ProductNonZero(p, P.z.x, Q.z.x);
    ProductNonZero(p, W, W);
    ProductNonZero(p, W * W, W);
  }

  /** a and b are reduced elements of one prime field that scale u1 and u2
      by an invertible k. */
  ghost predicate ScalesBy(p: int, a: Elem, b: Elem, u1: int, u2: int, k: int)
  {
    IsPrime(p) && Canonical(a) && Canonical(b) && a.field == b.field && a.field.p == p
    && Divides(p, u1 * k - a.x) && Divides(p, u2 * k - b.x) && !Divides(p, k)
  }

  /** Two reduced elements that scale u1 and u2 by one invertible k are
      equal exactly when u1 and u2 are congruent. */
  lemma ScaledEqual(p: int, a: Elem, b: Elem, u1: int, u2: int, k: int)
    requires ScalesBy(p, a, b, u1, u2, k)
    ensures Equal(a, b) <==> Divides(p, u1 - u2)
  {
    EqualSpec(a, b);
    if Divides(p, u1 - u2) {
      DividesScaled(p, u1 - u2, k);
      assert (u1 - u2) * k == u1 * k - u2 * k;
      DividesSum(p, u1 * k - a.x, 0) by { DividesZero(p); }
      assert -(u1 * k - a.x) == a.x - u1 * k;
      CongTrans(p, a.x, u1 * k, u2 * k);
      CongTrans(p, a.x, u2 * k, b.x);
    } else if Divides(p, a.x - b.x) {
      CancelBy(p, u1, u2, k, a.x, b.x);
    }
  }

  /** Same affine x, different affine y: H = 0, so the general formula
      gives Z3 = 0, the identity, and so does `Point.__add__`. */
  lemma VerticalCase(P: JPoint, Q: JPoint)
    requires OddPrimePair(P, Q) && !IsZero(P) && !IsZero(Q) && ToAffine(P).Ok? && ToAffine(Q).Ok?
    requires ToAffine(P).value.x == ToAffine(Q).value.x && ToAffine(P).value.y != ToAffine(Q).value.y
    ensures Add(ToAffine(P).value, ToAffine(Q).value) == Ok(Zero(P.curve))
    ensures ToAffine(JAdd(P, Q)) == Ok(Zero(P.curve))
  {
    ToAffineOk(P);
    ToAffineOk(Q);
    SameX(P, Q);
    FlatZ3(P, Q);
    assert JAdd(P, Q) == JPoint(AddX3(P, Q), AddY3(P, Q), AddZ3(P, Q), P.curve);
    VerticalAdd(ToAffine(P).value, ToAffine(Q).value);
  }

  /** U1 = U2 makes H = 0, so Z3 = ((Z1 + Z2)^2 - Z1^2 - Z2^2) H = 0. */
  lemma FlatZ3(P: JPoint, Q: JPoint)
    requires OddPrimePair(P, Q) && Equal(AddU1(P, Q), AddU2(P, Q))
    ensures AddZ3(P, Q).x == 0
  {
    var p, u1, u2 := P.curve.field.p, AddU1(P, Q), AddU2(P, Q);
    EqualSpec(u1, u2);
    var h := AddH(P, Q);
    DividesSum(p, u1.x - u2.x, u2.x - u1.x - h.x);
    ZeroResidue(h);
    var z3 := AddZ3(P, Q);
    assert z3.x == -(0 - z3.x);
    DividesSum(p, 0 - z3.x, 0) by { DividesZero(p); }
    ZeroResidue(z3);
  }

  /** `Point.__add__` of two points with one x and different y is the
      identity. */
  lemma VerticalAdd(A: Point, B: Point)
    requires SameCurve(A, B) && !A.zero && !B.zero && A.x == B.x && A.y != B.y
    ensures Add(A, B) == Ok(Zero(A.curve))
  {
    EqualSpec(A.x, B.x);
    DividesZero(A.curve.field.p);
    DistinctElems(A.y, B.y);
  }

  /** `JacobianPoint.__add__` agrees with `Point.__add__` on the affine
      images: wherever the affine law returns a point, the Jacobian sum is
      that point; the affine law raises exactly when doubling a point with
      y = 0, and there the Jacobian sum is the identity. */
  lemma AddAgrees(P: JPoint, Q: JPoint)
    requires OddPrimePair(P, Q) && Divides(P.curve.field.p, P.curve.a.x + 3)
    ensures ToAffine(P).Ok? && ToAffine(Q).Ok?
    ensures var A, B := ToAffine(P).value, ToAffine(Q).value;
      Add(A, B).Ok? ==> ToAffine(JAdd(P, Q)) == Add(A, B)
    ensures var A, B := ToAffine(P).value, ToAffine(Q).value;
      Add(A, B).Err? <==> A == B && !A.zero && A.y.x == 0
    ensures var A, B := ToAffine(P).value, ToAffine(Q).value;
      Add(A, B).Err? ==> IsZero(JAdd(P, Q))
  {
    ToAffineOk(P);
    ToAffineOk(Q);
    var A, B := ToAffine(P).value, ToAffine(Q).value;
    AddErrors(A, B);
    if IsZero(P) || IsZero(Q) {
    } else if A.x != B.x {
      ChordCase(P, Q);
    } else if A.y != B.y {
      VerticalCase(P, Q);
    } else {
      SameX(P, Q);
      assert A == B;
      if A.y.x != 0 {
        DoubleCase(P);
      } else {
        DoubleTwoTorsion(P);
      }
    }
  }
}
