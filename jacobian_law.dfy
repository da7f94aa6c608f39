/** `JacobianPoint.__add__` of libtls13/script/generate-ec-test-data.py
    (lines 339-367) against `Point.__add__` (lines 262-281), over an odd
    prime field, for two points whose affine x differ: the affine image of
    the "add-2007-bl" sum is the affine chord sum. The other cases, and
    the law as a whole, are in `JacobianDouble`. */
module JacobianLaw {
  import opened Results
  import opened Modular
  import opened FieldElements
  import opened Curves
  import opened Jacobian
  import opened JacobianAlgebra

  /** A reduced non-zero residue is not a multiple of p. */
  lemma NonZeroResidue(e: Elem)
    requires Canonical(e) && e.x != 0
    ensures !Divides(e.field.p, e.x)
  {
    DistinctNotCongruent(e.field.p, e.x, 0);
  }

  /** A Jacobian point whose coordinates are (x Zs^2, y Zs^3, Zs) modulo p,
      with Zs invertible, has the affine image (x, y). */
  lemma FromScaled(J: JPoint, R: Point, p: int, x: int, y: int, Zs: int)
    requires ValidJ(J) && p == J.curve.field.p && IsPrime(p)
    requires ValidPoint(R) && !R.zero && R.curve == J.curve && x == R.x.x && y == R.y.x
    requires ScaledBy(J, p, x, y, Zs)
    ensures ToAffine(J) == Ok(R)
  {
    assert J.z.x != 0;
    PowerNonZero(J.z, 2);
    PowerNonZero(J.z, 3);
    OverLaws(J.x, Power(J.z, 2));
    OverLaws(J.y, Power(J.z, 3));
    var o1 := Over(J.x, Power(J.z, 2)).value;
    var o2 := Over(J.y, Power(J.z, 3)).value;
    SquareOf(J.z);
    CubeOf(J.z);
    CancelSquare(p, o1.x, R.x.x, J.x.x, Power(J.z, 2).x, J.z.x, Zs);
    CancelCube(p, o2.x, R.y.x, J.y.x, Power(J.z, 3).x, J.z.x, Zs);
    SameElem(o1, R.x);
    SameElem(o2, R.y);
  }

  /** The affine coordinates of a non-zero Jacobian point, as congruences
      in Z itself. */
  lemma Scaled(J: JPoint, x: int, y: int)
    requires ValidJ(J) && IsPrime(J.curve.field.p) && !IsZero(J) && ToAffine(J).Ok?
    requires x == ToAffine(J).value.x.x && y == ToAffine(J).value.y.x
    ensures var p, z := J.curve.field.p, J.z.x;
      Divides(p, x * (z * z) - J.x.x) && Divides(p, y * (z * z * z) - J.y.x)
  {
    ToAffineOk(J);
    SquareOf(J.z);
    CubeOf(J.z);
    var p, A := J.curve.field.p, ToAffine(J).value;
    SquareScaled(p, A.x.x, J.x.x, Power(J.z, 2).x, J.z.x);
    CubeScaled(p, A.y.x, J.y.x, Power(J.z, 3).x, J.z.x);
  }

  // ---------------------------------------------------------------------
  // Two points with distinct affine x: "add-2007-bl" step by step, for
  // P = (x1 Z1^2, y1 Z1^3, Z1), Q = (x2 Z2^2, y2 Z2^3, Z2), W = Z1 Z2 and
  // D = x2 - x1.

  /** Two valid Jacobian points of one curve over an odd prime field. */
  ghost predicate OddPrimePair(P: JPoint, Q: JPoint)
  {
    ValidJ(P) && ValidJ(Q) && P.curve == Q.curve && IsPrime(P.curve.field.p) && P.curve.field.p % 2 == 1
  }

  /** U1 = x1 W^2 and U2 = x2 W^2. */
  lemma StepU(P: JPoint, Q: JPoint, x1: int, x2: int, W: int)
    requires OddPrimePair(P, Q) && W == P.z.x * Q.z.x
    requires Divides(P.curve.field.p, x1 * (P.z.x * P.z.x) - P.x.x)
    requires Divides(P.curve.field.p, x2 * (Q.z.x * Q.z.x) - Q.x.x)
    ensures Divides(P.curve.field.p, x1 * (W * W) - AddU1(P, Q).x)
    ensures Divides(P.curve.field.p, x2 * (W * W) - AddU2(P, Q).x)
  {
    var p, z1, z2 := P.curve.field.p, P.z.x, Q.z.x;
    SquareOf(P.z);
    SquareOf(Q.z);
    ScaledU(p, x1, P.x.x, z1, z2, Power(Q.z, 2).x, AddU1(P, Q).x);
    ScaledU(p, x2, Q.x.x, z2, z1, Power(P.z, 2).x, AddU2(P, Q).x);
    assert (z2 * z1) * (z2 * z1) == W * W;
  }

  /** S1 = y1 W^3 and S2 = y2 W^3. */
  lemma StepS(P: JPoint, Q: JPoint, y1: int, y2: int, W: int)
    requires OddPrimePair(P, Q) && W == P.z.x * Q.z.x
    requires Divides(P.curve.field.p, y1 * (P.z.x * P.z.x * P.z.x) - P.y.x)
    requires Divides(P.curve.field.p, y2 * (Q.z.x * Q.z.x * Q.z.x) - Q.y.x)
    ensures Divides(P.curve.field.p, y1 * (W * W * W) - AddS1(P, Q).x)
    ensures Divides(P.curve.field.p, y2 * (W * W * W) - AddS2(P, Q).x)
  {
    var p, z1, z2 := P.curve.field.p, P.z.x, Q.z.x;
    SquareOf(P.z);
    SquareOf(Q.z);
    ScaledS(p, y1, P.y.x, z1, z2, Power(Q.z, 2).x, Times(P.y, Q.z).x, AddS1(P, Q).x);
    ScaledS(p, y2, Q.y.x, z2, z1, Power(P.z, 2).x, Times(Q.y, P.z).x, AddS2(P, Q).x);
    assert (z2 * z1) * (z2 * z1) * (z2 * z1) == W * W * W;
  }

  /** H = D W^2. */
  lemma StepH(P: JPoint, Q: JPoint, x1: int, x2: int, D: int, W: int)
    requires OddPrimePair(P, Q) && D == x2 - x1
    requires Divides(P.curve.field.p, x1 * (W * W) - AddU1(P, Q).x)
    requires Divides(P.curve.field.p, x2 * (W * W) - AddU2(P, Q).x)
    ensures Divides(P.curve.field.p, D * (W * W) - AddH(P, Q).x)
  {
    ChordH(P.curve.field.p, x1, x2, W * W, AddU1(P, Q).x, AddU2(P, Q).x, AddH(P, Q).x);
  }

  /** I = 4 D^2 W^4. */
  lemma StepI(P: JPoint, Q: JPoint, D: int, W: int)
    requires OddPrimePair(P, Q) && Divides(P.curve.field.p, D * (W * W) - AddH(P, Q).x)
    ensures Divides(P.curve.field.p, 4 * (D * D) * ((W * W) * (W * W)) - AddI(P, Q).x)
  {
    var h := AddH(P, Q);
    var c2 := Const(h.field, 2);
    SquareOf(Times(h, c2));
    ChordI(P.curve.field.p, D, W * W, h.x, c2.x, Times(h, c2).x, AddI(P, Q).x);
  }

  /** J = 4 D^3 W^6 and V = 4 x1 D^2 W^6. */
  lemma StepJV(P: JPoint, Q: JPoint, x1: int, D: int, W: int)
    requires OddPrimePair(P, Q) && Divides(P.curve.field.p, D * (W * W) - AddH(P, Q).x)
    requires Divides(P.curve.field.p, 4 * (D * D) * ((W * W) * (W * W)) - AddI(P, Q).x)
    requires Divides(P.curve.field.p, x1 * (W * W) - AddU1(P, Q).x)
    ensures var K := (W * W) * (W * W) * (W * W);
      Divides(P.curve.field.p, 4 * (D * D * D) * K - AddJ(P, Q).x)
      && Divides(P.curve.field.p, 4 * x1 * (D * D) * K - AddV(P, Q).x)
  {
    ChordJV(P.curve.field.p, D, W * W, x1, AddH(P, Q).x, AddI(P, Q).x, AddU1(P, Q).x, AddJ(P, Q).x, AddV(P, Q).x);
  }

  /** R = s (2 D W^3), for the chord slope s. */
  lemma StepR(P: JPoint, Q: JPoint, s: int, x1: int, x2: int, y1: int, y2: int, D: int, W: int, Zs: int)
    requires OddPrimePair(P, Q) && D == x2 - x1 && Zs == 2 * D * (W * W * W)
    requires Divides(P.curve.field.p, y1 * (W * W * W) - AddS1(P, Q).x)
    requires Divides(P.curve.field.p, y2 * (W * W * W) - AddS2(P, Q).x)
    requires Divides(P.curve.field.p, s * (x1 - x2) - (y1 - y2))
    ensures Divides(P.curve.field.p, s * Zs - AddR(P, Q).x)
  {
    var s1, s2 := AddS1(P, Q), AddS2(P, Q);
    var ds, c2 := Minus(s2, s1), Const(s2.field, 2);
    ChordR(P.curve.field.p, s, x1, x2, y1, y2, W * W * W, s1.x, s2.x, ds.x, c2.x, AddR(P, Q).x);
    assert s * Zs == s * (2 * (x2 - x1) * (W * W * W));
  }

  /** Z3 = 2 D W^3. */
  lemma StepZ(P: JPoint, Q: JPoint, D: int, W: int, Zs: int)
    requires OddPrimePair(P, Q) && W == P.z.x * Q.z.x && Zs == 2 * D * (W * W * W)
    requires Divides(P.curve.field.p, D * (W * W) - AddH(P, Q).x)
    ensures Divides(P.curve.field.p, Zs - AddZ3(P, Q).x)
  {
    ZFormula(P.z, Q.z, AddH(P, Q), P.curve.field.p, D, W, Zs);
  }

  /** ((z1 + z2)^2 - z1^2 - z2^2) h = 2 D W^3 when h = D W^2 and W = z1 z2. */
  lemma ZFormula(z1: Elem, z2: Elem, h: Elem, p: int, D: int, W: int, Zs: int)
    requires p == z1.field.p && z2.field == z1.field && p > 0 && W == z1.x * z2.x && Zs == 2 * D * (W * W * W)
    requires Divides(p, D * (W * W) - h.x)
    ensures Divides(p, Zs - Times(Minus(Minus(Power(Plus(z1, z2), 2), Power(z1, 2)), Power(z2, 2)), h).x)
  {
    var zs := Plus(z1, z2);
    var q, g, d := Power(zs, 2), Power(z1, 2), Power(z2, 2);
    var w1 := Minus(q, g);
    var w2 := Minus(w1, d);
    SquareOf(zs);
    SquareOf(z1);
    SquareOf(z2);
    TwiceProduct(p, z1.x, z2.x, zs.x, q.x, g.x, d.x, w1.x, w2.x);
    ChordZ(p, z1.x, z2.x, W, w2.x, h.x, Times(w2, h).x, D, Zs);
  }

  /** X3 = x3 Zs^2 for Zs = 2 D W^3 and the chord's x3. */
  lemma StepX3(P: JPoint, Q: JPoint, s: int, x1: int, x2: int, x3: int, D: int, W: int, Zs: int)
    requires OddPrimePair(P, Q) && D == x2 - x1 && Zs == 2 * D * (W * W * W)
    requires Divides(P.curve.field.p, s * Zs - AddR(P, Q).x)
    requires var K := (W * W) * (W * W) * (W * W);
      Divides(P.curve.field.p, 4 * (D * D * D) * K - AddJ(P, Q).x)
      && Divides(P.curve.field.p, 4 * x1 * (D * D) * K - AddV(P, Q).x)
    requires Divides(P.curve.field.p, x3 - (s * s - x1 - x2))
    ensures Divides(P.curve.field.p, x3 * (Zs * Zs) - AddX3(P, Q).x)
  {
    XFormula(AddR(P, Q), AddJ(P, Q), AddV(P, Q), P.curve.field.p, s, x1, x2, x3, D, W, Zs);
  }

  /** r^2 - j - 2 v = x3 Zs^2 for r = s Zs, j = 4 D^3 W^6, v = 4 x1 D^2 W^6. */
  lemma XFormula(r: Elem, j: Elem, v: Elem, p: int, s: int, x1: int, x2: int, x3: int, D: int, W: int,
                 Zs: int)
    requires p == r.field.p && p == v.field.p && p > 0 && D == x2 - x1 && Zs == 2 * D * (W * W * W)
    requires Divides(p, s * Zs - r.x)
    requires var K := (W * W) * (W * W) * (W * W);
      Divides(p, 4 * (D * D * D) * K - j.x) && Divides(p, 4 * x1 * (D * D) * K - v.x)
    requires Divides(p, x3 - (s * s - x1 - x2))
    ensures Divides(p, x3 * (Zs * Zs) - Minus(Minus(Power(r, 2), j), Times(v, Const(v.field, 2))).x)
  {
    var K := (W * W) * (W * W) * (W * W);
    var r2, c2 := Power(r, 2), Const(v.field, 2);
    var m1, v2 := Minus(r2, j), Times(v, c2);
    SquareOfZs(D, W, Zs);
    SquareOf(r);
    ChordX3(p, s, x1, x2, x3, D, K, Zs, r.x, r2.x, j.x, m1.x, v.x, c2.x, v2.x, Minus(m1, v2).x);
  }

  /** Y3 = y3 Zs^3 for the chord's y3. */
  lemma StepY3(P: JPoint, Q: JPoint, s: int, x1: int, x2: int, x3: int, y1: int, y3: int, D: int, W: int,
               Zs: int)
    requires OddPrimePair(P, Q) && D == x2 - x1 && Zs == 2 * D * (W * W * W)
    requires Divides(P.curve.field.p, s * Zs - AddR(P, Q).x)
    requires var K := (W * W) * (W * W) * (W * W);
      Divides(P.curve.field.p, 4 * (D * D * D) * K - AddJ(P, Q).x)
      && Divides(P.curve.field.p, 4 * x1 * (D * D) * K - AddV(P, Q).x)
    requires Divides(P.curve.field.p, y1 * (W * W * W) - AddS1(P, Q).x)
    requires Divides(P.curve.field.p, x3 * (Zs * Zs) - AddX3(P, Q).x)
    requires Divides(P.curve.field.p, y3 - (-y1 + s * (x1 - x3)))
    ensures Divides(P.curve.field.p, y3 * (Zs * Zs * Zs) - AddY3(P, Q).x)
  {
    YFormula(AddR(P, Q), AddJ(P, Q), AddV(P, Q), AddS1(P, Q), AddX3(P, Q), P.curve.field.p,
      s, x1, x2, x3, y1, y3, D, W, Zs);
  }

  /** r (v - X3) - 2 s1 j = y3 Zs^3, with the values of `XFormula` and
      s1 = y1 W^3. */
  lemma YFormula(r: Elem, j: Elem, v: Elem, s1: Elem, X3: Elem, p: int, s: int, x1: int, x2: int, x3: int,
                 y1: int, y3: int, D: int, W: int, Zs: int)
    requires p == r.field.p && p == v.field.p && p == s1.field.p && p > 0
    requires D == x2 - x1 && Zs == 2 * D * (W * W * W)
    requires Divides(p, s * Zs - r.x)
    requires var K := (W * W) * (W * W) * (W * W);
      Divides(p, 4 * (D * D * D) * K - j.x) && Divides(p, 4 * x1 * (D * D) * K - v.x)
    requires Divides(p, y1 * (W * W * W) - s1.x) && Divides(p, x3 * (Zs * Zs) - X3.x)
    requires Divides(p, y3 - (-y1 + s * (x1 - x3)))
    ensures Divides(p, y3 * (Zs * Zs * Zs) - Minus(Times(r, Minus(v, X3)), Times(Times(s1, Const(s1.field, 2)), j)).x)
  {
    var K := (W * W) * (W * W) * (W * W);
    var d, c2 := Minus(v, X3), Const(s1.field, 2);
    var rd, s12 := Times(r, d), Times(s1, c2);
    var sj := Times(s12, j);
    SquareOfZs(D, W, Zs);
    ChordY3(p, s, x1, x3, y1, y3, D, K, W * W * W, Zs, v.x, X3.x, d.x, r.x, rd.x, s1.x, c2.x,
      s12.x, j.x, sj.x, Minus(rd, sj).x);
  }

  /** The affine data of the chord case, as congruences modulo p: P and Q
      scale (x1, y1) and (x2, y2) by their Z, D = x2 - x1 is invertible, s
      is the chord slope and (x3, y3) the third point. */
  ghost predicate ChordData(P: JPoint, Q: JPoint, x1: int, y1: int, x2: int, y2: int, s: int,
                            x3: int, y3: int, D: int)
  {
    var p, z1, z2 := P.curve.field.p, P.z.x, Q.z.x;
    z1 != 0 && z2 != 0
    && Divides(p, x1 * (z1 * z1) - P.x.x) && Divides(p, y1 * (z1 * z1 * z1) - P.y.x)
    && Divides(p, x2 * (z2 * z2) - Q.x.x) && Divides(p, y2 * (z2 * z2 * z2) - Q.y.x)
    && D == x2 - x1 && !Divides(p, D)
    && Divides(p, s * (x1 - x2) - (y1 - y2))
    && Divides(p, x3 - (s * s - x1 - x2))
    && Divides(p, y3 - (-y1 + s * (x1 - x3)))
  }

  /** J = (x Zs^2, y Zs^3, Zs) modulo p, with Zs invertible. */
  ghost predicate ScaledBy(J: JPoint, p: int, x: int, y: int, Zs: int)
  {
    !Divides(p, Zs) && Divides(p, Zs - J.z.x)
    && Divides(p, x * (Zs * Zs) - J.x.x) && Divides(p, y * (Zs * Zs * Zs) - J.y.x)
  }

  /** "add-2007-bl" on points with affine coordinates (x1, y1), (x2, y2),
      x1 != x2: the sum is (x3 Zs^2, y3 Zs^3, Zs) for the chord's third
      point (x3, y3), with Zs = 2 (x2 - x1) (Z1 Z2)^3. */
  lemma ChordJacobian(P: JPoint, Q: JPoint, x1: int, y1: int, x2: int, y2: int, s: int, x3: int, y3: int,
                      D: int, W: int, Zs: int)
    requires OddPrimePair(P, Q) && ChordData(P, Q, x1, y1, x2, y2, s, x3, y3, D)
    requires W == P.z.x * Q.z.x && Zs == 2 * D * (W * W * W)
    ensures var J := JPoint(AddX3(P, Q), AddY3(P, Q), AddZ3(P, Q), P.curve);
      ValidJ(J) && ScaledBy(J, P.curve.field.p, x3, y3, Zs)
  {
    ChordFront(P, Q, x1, y1, x2, y2, s, x3, y3, D, W);
    ChordXY(P, Q, x1, y1, x2, y2, s, x3, y3, D, W, Zs);
    ZsNonZero(P, Q, D, W, Zs);
    SumValid(P, Q);
    ScaledByParts(JPoint(AddX3(P, Q), AddY3(P, Q), AddZ3(P, Q), P.curve), P.curve.field.p, x3, y3, Zs,
      AddX3(P, Q).x, AddY3(P, Q).x, AddZ3(P, Q).x);
  }

  /** The general formula gives reduced coordinates on the curve's field. */
  lemma SumValid(P: JPoint, Q: JPoint)
    requires OddPrimePair(P, Q)
    ensures ValidJ(JPoint(AddX3(P, Q), AddY3(P, Q), AddZ3(P, Q), P.curve))
  {
  }

  /** H, J and V as functions of D and W. */
  ghost predicate ChordMiddle(P: JPoint, Q: JPoint, x1: int, D: int, W: int)
  {
    var p, K := P.curve.field.p, (W * W) * (W * W) * (W * W);
    Divides(p, D * (W * W) - AddH(P, Q).x)
    && Divides(p, 4 * (D * D * D) * K - AddJ(P, Q).x)
    && Divides(p, 4 * x1 * (D * D) * K - AddV(P, Q).x)
  }

  /** The steps of "add-2007-bl" up to J and V. */
  lemma ChordFront(P: JPoint, Q: JPoint, x1: int, y1: int, x2: int, y2: int, s: int, x3: int, y3: int,
                   D: int, W: int)
    requires OddPrimePair(P, Q) && ChordData(P, Q, x1, y1, x2, y2, s, x3, y3, D) && W == P.z.x * Q.z.x
    ensures ChordMiddle(P, Q, x1, D, W)
  {
    StepU(P, Q, x1, x2, W);
    StepH(P, Q, x1, x2, D, W);
    StepI(P, Q, D, W);
    StepJV(P, Q, x1, D, W);
  }

  /** X3 = x3 Zs^2 and Y3 = y3 Zs^3. */
  lemma ChordXY(P: JPoint, Q: JPoint, x1: int, y1: int, x2: int, y2: int, s: int, x3: int, y3: int,
                D: int, W: int, Zs: int)
    requires OddPrimePair(P, Q) && ChordData(P, Q, x1, y1, x2, y2, s, x3, y3, D)
    requires W == P.z.x * Q.z.x && Zs == 2 * D * (W * W * W) && ChordMiddle(P, Q, x1, D, W)
    ensures Divides(P.curve.field.p, x3 * (Zs * Zs) - AddX3(P, Q).x)
    ensures Divides(P.curve.field.p, y3 * (Zs * Zs * Zs) - AddY3(P, Q).x)
  {
    StepS(P, Q, y1, y2, W);
    StepR(P, Q, s, x1, x2, y1, y2, D, W, Zs);
    StepX3(P, Q, s, x1, x2, x3, D, W, Zs);
    StepY3(P, Q, s, x1, x2, x3, y1, y3, D, W, Zs);
  }

  /** Zs = 2 D W^3 is invertible and Z3 is Zs. */
  lemma ZsNonZero(P: JPoint, Q: JPoint, D: int, W: int, Zs: int)
    requires OddPrimePair(P, Q) && P.z.x != 0 && Q.z.x != 0 && !Divides(P.curve.field.p, D)
    requires W == P.z.x * Q.z.x && Zs == 2 * D * (W * W * W)
    requires Divides(P.curve.field.p, D * (W * W) - AddH(P, Q).x)
    ensures !Divides(P.curve.field.p, Zs) && Divides(P.curve.field.p, Zs - AddZ3(P, Q).x)
  {
    var p := P.curve.field.p;
    StepZ(P, Q, D, W, Zs);
    NonZeroResidue(P.z);
    NonZeroResidue(Q.z);
    ProductNonZero(p, P.z.x, Q.z.x);
    ProductNonZero(p, W, W);
    ProductNonZero(p, W * W, W);
    TwiceProductNonZero(p, D, W * W * W);
  }

  /** `ScaledBy` from congruences about the coordinates X, Y, Z of J. */
  lemma ScaledByParts(J: JPoint, p: int, x: int, y: int, Zs: int, X: int, Y: int, Z: int)
    requires J.x.x == X && J.y.x == Y && J.z.x == Z
    requires !Divides(p, Zs) && Divides(p, Zs - Z)
    requires Divides(p, x * (Zs * Zs) - X) && Divides(p, y * (Zs * Zs * Zs) - Y)
    ensures ScaledBy(J, p, x, y, Zs)
  {
  }

  /** Affine points with distinct x take the general branch of `JAdd`. */
  lemma GeneralBranch(P: JPoint, Q: JPoint, x1: int, y1: int, x2: int, y2: int, s: int, x3: int, y3: int,
                      D: int, W: int)
    requires OddPrimePair(P, Q) && ChordData(P, Q, x1, y1, x2, y2, s, x3, y3, D) && W == P.z.x * Q.z.x
    ensures JAdd(P, Q) == JPoint(AddX3(P, Q), AddY3(P, Q), AddZ3(P, Q), P.curve)
  {
    StepU(P, Q, x1, x2, W);
    ChordBranch(P, Q, x1, x2, W);
  }

  /** With U1 != U2 the sum takes the general branch. */
  lemma ChordBranch(P: JPoint, Q: JPoint, x1: int, x2: int, W: int)
    requires OddPrimePair(P, Q) && P.z.x != 0 && Q.z.x != 0 && W == P.z.x * Q.z.x
    requires !Divides(P.curve.field.p, x2 - x1)
    requires Divides(P.curve.field.p, x1 * (W * W) - AddU1(P, Q).x)
    requires Divides(P.curve.field.p, x2 * (W * W) - AddU2(P, Q).x)
    ensures JAdd(P, Q) == JPoint(AddX3(P, Q), AddY3(P, Q), AddZ3(P, Q), P.curve)
  {
    UnequalU(P, Q, x1, x2, W);
    GeneralSum(P, Q);
  }

  /** Past the identity and doubling tests, the sum is the general formula. */
  lemma GeneralSum(P: JPoint, Q: JPoint)
    requires OddPrimePair(P, Q) && P.z.x != 0 && Q.z.x != 0 && !Equal(AddU1(P, Q), AddU2(P, Q))
    ensures JAdd(P, Q) == JPoint(AddX3(P, Q), AddY3(P, Q), AddZ3(P, Q), P.curve)
  {
  }

  /** x1 != x2 makes U1 and U2 differ. */
  lemma UnequalU(P: JPoint, Q: JPoint, x1: int, x2: int, W: int)
    requires OddPrimePair(P, Q) && P.z.x != 0 && Q.z.x != 0 && W == P.z.x * Q.z.x
    requires !Divides(P.curve.field.p, x2 - x1)
    requires Divides(P.curve.field.p, x1 * (W * W) - AddU1(P, Q).x)
    requires Divides(P.curve.field.p, x2 * (W * W) - AddU2(P, Q).x)
    ensures !Equal(AddU1(P, Q), AddU2(P, Q))
  {
    var p := P.curve.field.p;
    NonZeroResidue(P.z);
    NonZeroResidue(Q.z);
    ProductNonZero(p, P.z.x, Q.z.x);
    ProductNonZero(p, W, W);
    EqualSpec(AddU1(P, Q), AddU2(P, Q));
    if Divides(p, AddU1(P, Q).x - AddU2(P, Q).x) {
      CancelBy(p, x1, x2, W * W, AddU1(P, Q).x, AddU2(P, Q).x);
      DividesSum(p, x1 - x2, 0) by { DividesZero(p); }
      assert false;
    }
  }

  /** Zs^2 for Zs = 2 D W^3. */
  lemma SquareOfZs(D: int, W: int, Zs: int)
    requires Zs == 2 * D * (W * W * W)
    ensures Zs * Zs == 4 * (D * D) * ((W * W) * (W * W) * (W * W))
  {
  }

  /** The affine side of the chord case: the affine coordinates of both
      points, the chord slope s, the difference D = x2 - x1 and the third
      point R = (x3, y3) that `Add` returns, as congruences in Z. */
  lemma ChordInputs(P: JPoint, Q: JPoint) returns (x1: int, y1: int, x2: int, y2: int, s: int,
                                                   x3: int, y3: int, D: int, R: Point)
    requires OddPrimePair(P, Q) && !IsZero(P) && !IsZero(Q)
    requires ToAffine(P).Ok? && ToAffine(Q).Ok? && ToAffine(P).value.x != ToAffine(Q).value.x
    ensures Add(ToAffine(P).value, ToAffine(Q).value) == Ok(R)
    ensures ValidPoint(R) && !R.zero && R.curve == P.curve && x3 == R.x.x && y3 == R.y.x
    ensures ChordData(P, Q, x1, y1, x2, y2, s, x3, y3, D)
  {
    ToAffineOk(P);
    ToAffineOk(Q);
    var A, B := ToAffine(P).value, ToAffine(Q).value;
    x1, y1, x2, y2 := A.x.x, A.y.x, B.x.x, B.y.x;
    Scaled(P, x1, y1);
    Scaled(Q, x2, y2);
    s, x3, y3, R := ChordAt(A, B, P.curve.field.p, x1, y1, x2, y2);
    D := x2 - x1;
    DistinctElems(A.x, B.x);
  }

  /** `Point.__add__` on two points with distinct x, as congruences in Z
      about their coordinates. */
  lemma ChordAt(A: Point, B: Point, p: int, x1: int, y1: int, x2: int, y2: int)
    returns (s: int, x3: int, y3: int, R: Point)
    requires SameCurve(A, B) && p == A.curve.field.p && IsPrime(p) && !A.zero && !B.zero && A.x != B.x
    requires x1 == A.x.x && y1 == A.y.x && x2 == B.x.x && y2 == B.y.x
    ensures Add(A, B) == Ok(R)
    ensures ValidPoint(R) && !R.zero && R.curve == A.curve && x3 == R.x.x && y3 == R.y.x
    ensures Divides(p, s * (x1 - x2) - (y1 - y2))
    ensures Divides(p, x3 - (s * s - x1 - x2))
    ensures Divides(p, y3 - (-y1 + s * (x1 - x3)))
  {
    var e;
    e, s := SlopeOf(A, B, p, x1, y1, x2, y2);
    R, x3, y3 := ThirdOf(A, B, e, p, x1, y1, x2, s);
    DistinctElems(A.x, B.x);
    ChordAdd(A, B, e, R);
  }

  /** The chord slope of two points with distinct x. */
  lemma SlopeOf(A: Point, B: Point, p: int, x1: int, y1: int, x2: int, y2: int) returns (e: Elem, s: int)
    requires SameCurve(A, B) && p == A.curve.field.p && IsPrime(p) && A.x != B.x
    requires x1 == A.x.x && y1 == A.y.x && x2 == B.x.x && y2 == B.y.x
    ensures ChordSlope(A, B) == Ok(e) && Canonical(e) && e.field == A.curve.field && s == e.x
    ensures Divides(p, s * (x1 - x2) - (y1 - y2))
  {
    ChordSlopeSpec(A, B);
    e := ChordSlope(A, B).value;
    s := e.x;
  }

  /** The third point the line with slope e meets, reflected. */
  lemma ThirdOf(A: Point, B: Point, e: Elem, p: int, x1: int, y1: int, x2: int, s: int)
    returns (R: Point, x3: int, y3: int)
    requires SameCurve(A, B) && Canonical(e) && e.field == A.curve.field && p == A.curve.field.p
    requires x1 == A.x.x && y1 == A.y.x && x2 == B.x.x && s == e.x
    ensures R == Third(A, B, e) && ValidPoint(R) && !R.zero && R.curve == A.curve
    ensures x3 == R.x.x && y3 == R.y.x
    ensures Divides(p, x3 - (s * s - x1 - x2))
    ensures Divides(p, y3 - (-y1 + s * (x1 - x3)))
  {
    ThirdSpec(A, B, e);
    R := Third(A, B, e);
    x3, y3 := R.x.x, R.y.x;
  }

  /** `Point.__add__` takes the chord branch when the x differ. */
  lemma ChordAdd(A: Point, B: Point, e: Elem, R: Point)
    requires !A.zero && !B.zero && !Equal(A.x, B.x)
    requires ChordSlope(A, B) == Ok(e) && R == Third(A, B, e)
    ensures Add(A, B) == Ok(R)
  {
  }

  /** The sum of two non-zero points whose affine x differ is the affine
      chord sum. */
  lemma ChordCase(P: JPoint, Q: JPoint)
    requires OddPrimePair(P, Q) && !IsZero(P) && !IsZero(Q)
    requires ToAffine(P).Ok? && ToAffine(Q).Ok? && ToAffine(P).value.x != ToAffine(Q).value.x
    ensures Add(ToAffine(P).value, ToAffine(Q).value).Ok?
    ensures ToAffine(JAdd(P, Q)) == Add(ToAffine(P).value, ToAffine(Q).value)
  {
    var x1, y1, x2, y2, s, x3, y3, D, R := ChordInputs(P, Q);
    var W := P.z.x * Q.z.x;
    var Zs := 2 * D * (W * W * W);
    GeneralBranch(P, Q, x1, y1, x2, y2, s, x3, y3, D, W);
    ChordJacobian(P, Q, x1, y1, x2, y2, s, x3, y3, D, W, Zs);
    FromScaled(JPoint(AddX3(P, Q), AddY3(P, Q), AddZ3(P, Q), P.curve), R, P.curve.field.p, x3, y3, Zs);
  }

  /** Distinct reduced elements are neither equal nor congruent. */
  lemma DistinctElems(a: Elem, b: Elem)
    requires Canonical(a) && Canonical(b) && a.field == b.field && a != b
    ensures !Equal(a, b) && !Divides(a.field.p, a.x - b.x) && !Divides(a.field.p, b.x - a.x)
  {
    EqualSpec(a, b);
    DistinctNotCongruent(a.field.p, a.x, b.x);
    DistinctNotCongruent(a.field.p, b.x, a.x);
  }
}
