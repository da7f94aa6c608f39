/** `JacobianPoint` of libtls13/script/generate-ec-test-data.py (lines
    292-370): (X, Y, Z) stands for the affine point (X/Z^2, Y/Z^3), and Z = 0
    for the identity. Doubling is the Explicit-Formulas Database's
    "dbl-2001-b" (for a = -3) and addition its "add-2007-bl". */
module Jacobian {
  import opened Results
  import opened Modular
  import PrimeField
  import opened FieldElements
  import opened Curves
  import SquareRoot

  datatype JPoint = JPoint(x: Elem, y: Elem, z: Elem, curve: Curve)

  /** `JacobianPoint(x, y, z, curve)`: the coordinates are brought into the
      curve's field. */
  function MakeJ(x: Elem, y: Elem, z: Elem, c: Curve): (J: JPoint)
    ensures J.curve == c && J.x.field == c.field && J.y.field == c.field && J.z.field == c.field
    ensures Divides(c.field.p, x.x - J.x.x) && Divides(c.field.p, y.x - J.y.x) && Divides(c.field.p, z.x - J.z.x)
    ensures ((x.field != c.field || Canonical(x)) && (y.field != c.field || Canonical(y))
      && (z.field != c.field || Canonical(z))) ==> Canonical(J.x) && Canonical(J.y) && Canonical(J.z)
  {
    JPoint(Into(x, c.field), Into(y, c.field), Into(z, c.field), c)
  }

  /** The points the script builds: a valid curve and reduced coordinates
      in its field. */
  predicate ValidJ(J: JPoint)
  {
    ValidCurve(J.curve) && Canonical(J.x) && Canonical(J.y) && Canonical(J.z)
    && J.x.field == J.curve.field && J.y.field == J.curve.field && J.z.field == J.curve.field
  }

  /** `JacobianPoint.zero(curve)`: (0, 1, 0). */
  function JZero(c: Curve): JPoint
  {
    var F := c.field;
    MakeJ(Const(F, 0), Const(F, 1), Const(F, 0), c)
  }

  /** `is_zero`: `not self.z`. */
  predicate IsZero(J: JPoint)
  {
    J.z.x == 0
  }

  /** `from_affine`: Z = 1 - int(is_zero()). */
  function FromAffine(P: Point): JPoint
  {
    MakeJ(P.x, P.y, Const(P.curve.field, 1 - (if P.zero then 1 else 0)), P.curve)
  }

  /** `to_affine`: (X/Z^2, Y/Z^3), or the identity when Z = 0; a division
      that has no inverse raises ValueError. */
  function ToAffine(J: JPoint): Result<Point, FieldError>
  {
    if J.z.x != 0 then
      var x :- Over(J.x, Power(J.z, 2));
      var y :- Over(J.y, Power(J.z, 3));
      Ok(MakePoint(x, y, J.curve, false))
    else Ok(Zero(J.curve))
  }

  // The named intermediate values of "dbl-2001-b".
  function DblDelta(J: JPoint): Elem { Power(J.z, 2) }
  function DblGamma(J: JPoint): Elem { Power(J.y, 2) }
  function DblBeta(J: JPoint): Elem { Times(J.x, DblGamma(J)) }
  function DblAlpha(J: JPoint): Elem
  {
    Times(Times(Minus(J.x, DblDelta(J)), Const(J.x.field, 3)), Plus(J.x, DblDelta(J)))
  }

  function DblX3(J: JPoint): Elem
  {
    Minus(Power(DblAlpha(J), 2), Times(DblBeta(J), Const(DblBeta(J).field, 8)))
  }

  function DblY3(J: JPoint): Elem
  {
    var beta, gamma := DblBeta(J), DblGamma(J);
    Minus(Times(DblAlpha(J), Minus(Times(beta, Const(beta.field, 4)), DblX3(J))),
      Times(Power(gamma, 2), Const(gamma.field, 8)))
  }

  function DblZ3(J: JPoint): Elem
  {
    Minus(Minus(Power(Plus(J.y, J.z), 2), DblGamma(J)), DblDelta(J))
  }

  /** `double`, "dbl-2001-b": it takes a = -3 and ignores `curve.a`. */
  function JDouble(J: JPoint): JPoint
  {
    MakeJ(DblX3(J), DblY3(J), DblZ3(J), J.curve)
  }

  // The named intermediate values of "add-2007-bl".
  function AddU1(P: JPoint, Q: JPoint): Elem { Times(P.x, Power(Q.z, 2)) }
  function AddU2(P: JPoint, Q: JPoint): Elem { Times(Q.x, Power(P.z, 2)) }
  function AddS1(P: JPoint, Q: JPoint): Elem { Times(Times(P.y, Q.z), Power(Q.z, 2)) }
  function AddS2(P: JPoint, Q: JPoint): Elem { Times(Times(Q.y, P.z), Power(P.z, 2)) }
  function AddH(P: JPoint, Q: JPoint): Elem { Minus(AddU2(P, Q), AddU1(P, Q)) }
  function AddI(P: JPoint, Q: JPoint): Elem
  {
    var h := AddH(P, Q);
    Power(Times(h, Const(h.field, 2)), 2)
  }

  function AddJ(P: JPoint, Q: JPoint): Elem { Times(AddH(P, Q), AddI(P, Q)) }
  function AddR(P: JPoint, Q: JPoint): Elem
  {
    var s2 := AddS2(P, Q);
    Times(Minus(s2, AddS1(P, Q)), Const(s2.field, 2))
  }

  function AddV(P: JPoint, Q: JPoint): Elem { Times(AddU1(P, Q), AddI(P, Q)) }
  function AddX3(P: JPoint, Q: JPoint): Elem
  {
    var v := AddV(P, Q);
    Minus(Minus(Power(AddR(P, Q), 2), AddJ(P, Q)), Times(v, Const(v.field, 2)))
  }

  function AddY3(P: JPoint, Q: JPoint): Elem
  {
    var s1 := AddS1(P, Q);
    Minus(Times(AddR(P, Q), Minus(AddV(P, Q), AddX3(P, Q))), Times(Times(s1, Const(s1.field, 2)), AddJ(P, Q)))
  }

  function AddZ3(P: JPoint, Q: JPoint): Elem
  {
    Times(Minus(Minus(Power(Plus(P.z, Q.z), 2), Power(P.z, 2)), Power(Q.z, 2)), AddH(P, Q))
  }

  /** `__add__`, "add-2007-bl"; equal inputs go to `double`. */
  function JAdd(P: JPoint, Q: JPoint): JPoint
  {
    if IsZero(P) then Q
    else if IsZero(Q) then P
    else if Equal(AddU1(P, Q), AddU2(P, Q)) && Equal(AddS1(P, Q), AddS2(P, Q)) then JDouble(P)
    else MakeJ(AddX3(P, Q), AddY3(P, Q), AddZ3(P, Q), P.curve)
  }

  /** `__neg__`. */
  function JNeg(J: JPoint): JPoint
  {
    MakeJ(J.x, Negate(J.y), J.z, J.curve)
  }

  /** `PointOps.__sub__`. */
  function JSub(P: JPoint, Q: JPoint): JPoint
  {
    JAdd(P, JNeg(Q))
  }

  /** `PointOps.__eq__`: the difference is the identity. */
  predicate JEq(P: JPoint, Q: JPoint)
  {
    IsZero(JSub(P, Q))
  }

  // ---------------------------------------------------------------------
  // The representation.

  /** A non-zero element of a prime field has non-zero powers. */
  lemma PowerNonZero(z: Elem, n: nat)
    requires Canonical(z) && IsPrime(z.field.p) && z.x != 0
    ensures Power(z, n).x != 0
  {
    var p := z.field.p;
    ModUnique(z.x, p, 0, z.x);
    PowNonZero(z.x, n, p);
    Representative(Numerals.Pow(z.x, n), p, Power(z, n).x);
  }

  /** The element 1 divides without changing the dividend. */
  lemma OverOne(a: Elem, one: Elem)
    requires Canonical(a) && Canonical(one) && one.field == a.field && one.x == 1
    ensures Over(a, one) == Ok(a)
  {
    var F := a.field;
    ModUnique(1, F.p, 0, 1);
    PrimeField.InvSpec(F, 1, 1);
    var r := Over(a, one).value;
    SameElem(r, a);
  }

  /** `from_affine` makes Z = 1 for a point and Z = 0 for the identity, and
      `to_affine` gives the point back. */
  lemma FromAffineSpec(P: Point)
    requires ValidPoint(P)
    ensures ValidJ(FromAffine(P)) && FromAffine(P).curve == P.curve
    ensures IsZero(FromAffine(P)) <==> P.zero
    ensures !P.zero ==> FromAffine(P).x == P.x && FromAffine(P).y == P.y && FromAffine(P).z.x == 1
    ensures ToAffine(FromAffine(P)) == Ok(P)
  {
    var F := P.curve.field;
    var J := FromAffine(P);
    if P.zero {
      ModUnique(0, F.p, 0, 0);
    } else {
      ModUnique(1, F.p, 0, 1);
      SameResidue(F.p, J.z.x, 1);
      var z2, z3 := Power(J.z, 2), Power(J.z, 3);
      assert Numerals.Pow(1, 2) == 1 && Numerals.Pow(1, 3) == 1;
      SameResidue(F.p, z2.x, 1);
      SameResidue(F.p, z3.x, 1);
      OverOne(P.x, z2);
      OverOne(P.y, z3);
    }
  }

  /** `JacobianPoint.zero` is (0, 1, 0): the identity, and it goes to the
      affine identity. */
  lemma JZeroSpec(c: Curve)
    requires ValidCurve(c)
    ensures ValidJ(JZero(c)) && IsZero(JZero(c)) && JZero(c).x.x == 0 && JZero(c).y.x == 1
    ensures ToAffine(JZero(c)) == Ok(Zero(c))
  {
    ModUnique(0, c.field.p, 0, 0);
    ModUnique(1, c.field.p, 0, 1);
  }

  /** Over a prime field every Jacobian point has an affine image. */
  lemma ToAffineOk(J: JPoint)
    requires ValidJ(J) && IsPrime(J.curve.field.p)
    ensures ToAffine(J).Ok? && ToAffine(J).value.curve == J.curve
    ensures ValidPoint(ToAffine(J).value)
    ensures (ToAffine(J).value.zero <==> IsZero(J))
    ensures !IsZero(J) ==> (var p := J.curve.field.p; var A := ToAffine(J).value;
      Divides(p, A.x.x * Power(J.z, 2).x - J.x.x) && Divides(p, A.y.x * Power(J.z, 3).x - J.y.x))
  {
    if !IsZero(J) {
      PowerNonZero(J.z, 2);
      PowerNonZero(J.z, 3);
      OverLaws(J.x, Power(J.z, 2));
      OverLaws(J.y, Power(J.z, 3));
    }
  }

  /** `__neg__` keeps Z and is an involution. */
  lemma JNegLaws(J: JPoint)
    requires ValidJ(J)
    ensures ValidJ(JNeg(J)) && JNeg(J).curve == J.curve && JNeg(J).x == J.x && JNeg(J).z == J.z
    ensures Divides(J.curve.field.p, JNeg(J).y.x + J.y.x)
    ensures JNeg(JNeg(J)) == J
  {
    var p := J.curve.field.p;
    PlusLaws(J.y, J.y);
    DividesSum(p, -J.y.x - Negate(J.y).x, 0) by { DividesZero(p); }
  }

  /** `__neg__` commutes with `to_affine`. */
  lemma JNegAffine(J: JPoint)
    requires ValidJ(J) && IsPrime(J.curve.field.p)
    ensures ToAffine(J).Ok? && ToAffine(JNeg(J)) == Ok(Curves.Neg(ToAffine(J).value))
  {
    JNegLaws(J);
    ToAffineOk(J);
    var A := ToAffine(J).value;
    var N := JNeg(J);
    if IsZero(J) {
      assert ToAffine(N) == Ok(Zero(J.curve));
      ZeroNegated(A);
    } else {
      NegatedY(J);
      var B, M := ToAffine(N).value, Curves.Neg(A);
      assert B.x == Over(J.x, Power(J.z, 2)).value == A.x;
      assert M.x == A.x && M.y == Negate(A.y) && M.curve == J.curve && !M.zero;
      assert B == MakePoint(B.x, B.y, J.curve, false);
    }
  }

  /** The y coordinate of the negation, in affine form. */
  lemma NegatedY(J: JPoint)
    requires ValidJ(J) && IsPrime(J.curve.field.p) && !IsZero(J)
    ensures ToAffine(JNeg(J)).Ok? && ToAffine(J).Ok?
    ensures ToAffine(JNeg(J)).value.y == Negate(ToAffine(J).value.y)
  {
    var p := J.curve.field.p;
    var N := JNeg(J);
    JNegLaws(J);
    ToAffineOk(J);
    ToAffineOk(N);
    var A, B := ToAffine(J).value, ToAffine(N).value;
    var c := Power(J.z, 3).x;
    PowerNonZero(J.z, 3);
    ModUnique(c, p, 0, c);
    var n := Negate(A.y);
    NegCancel(p, B.y.x, n.x, A.y.x, c, J.y.x, N.y.x) by {
      DividesSum(p, -A.y.x - n.x, 0) by { DividesZero(p); }
    }
    SameElem(B.y, n);
  }

  /** The affine identity is its own negation. */
  lemma ZeroNegated(A: Point)
    requires ValidPoint(A) && A.zero
    ensures Curves.Neg(A) == Zero(A.curve)
  {
    var p := A.curve.field.p;
    var n := Negate(A.y);
    ModUnique(0, p, 0, 0);
    DividesSum(p, -0 - n.x, 0) by { DividesZero(p); }
    SameResidue(p, n.x, 0);
  }

  /** A solution of b*c = -y is the negation of a solution of a*c = y. */
  lemma NegCancel(p: int, b: int, n: int, a: int, c: int, y: int, ny: int)
    requires IsPrime(p) && Divides(p, b * c - ny) && Divides(p, ny + y) && Divides(p, n + a)
    requires Divides(p, a * c - y) && c % p != 0
    ensures Divides(p, b - n)
  {
    assert (b - n) * c == (b * c - ny) + (ny + y) + (a * c - y) - (n + a) * c;
    DividesScaled(p, n + a, c);
    DividesSum(p, b * c - ny, ny + y);
    DividesSum(p, (b * c - ny) + (ny + y), a * c - y);
    DividesSum(p, (b * c - ny) + (ny + y) + (a * c - y), (n + a) * c);
    CongruentIffDivides((b - n) * c, 0, p);
    Euclid(b - n, c, p);
    CongruentIffDivides(b - n, 0, p);
  }

  // ---------------------------------------------------------------------
  // A point minus itself.

  lemma SquareOf(e: Elem)
    ensures Divides(e.field.p, e.x * e.x - Power(e, 2).x)
  {
    var x := e.x;
    assert Numerals.Pow(x, 1) == x * Numerals.Pow(x, 0) == x;
    assert Numerals.Pow(x, 2) == x * x;
  }

  lemma CubeOf(e: Elem)
    ensures Divides(e.field.p, e.x * e.x * e.x - Power(e, 3).x)
  {
    var x := e.x;
    assert Numerals.Pow(x, 1) == x * Numerals.Pow(x, 0) == x;
    assert Numerals.Pow(x, 2) == x * x;
    assert Numerals.Pow(x, 3) == x * (x * x) == x * x * x;
  }

  /** A reduced element congruent to 0 is 0. */
  lemma ZeroResidue(e: Elem)
    requires Canonical(e) && Divides(e.field.p, e.x)
    ensures e.x == 0
  {
    ModUnique(0, e.field.p, 0, 0);
    SameResidue(e.field.p, e.x, 0);
  }

  lemma SelfMinus(a: Elem)
    requires Canonical(a)
    ensures Minus(a, a).x == 0
  {
    var p, h := a.field.p, Minus(a, a);
    assert a.x - a.x - h.x == -h.x;
    DividesSum(p, -h.x, 0) by { DividesZero(p); }
    ZeroResidue(h);
  }

  /** Doubling makes Z = (Y + Z)^2 - Y^2 - Z^2 = 2YZ. */
  lemma DoubleZ(J: JPoint)
    requires ValidJ(J)
    ensures Divides(J.curve.field.p, JDouble(J).z.x - 2 * J.y.x * J.z.x)
  {
    var S := Plus(J.y, J.z);
    var q, g, d := Power(S, 2), Power(J.y, 2), Power(J.z, 2);
    var m1 := Minus(q, g);
    var m2 := Minus(m1, d);
    assert JDouble(J).z == m2;
    SquareOf(S);
    SquareOf(J.y);
    SquareOf(J.z);
    TwiceProduct(J.curve.field.p, J.y.x, J.z.x, S.x, q.x, g.x, d.x, m1.x, m2.x);
  }

  lemma TwiceProduct(p: int, y: int, z: int, s: int, q: int, g: int, d: int, m1: int, m2: int)
    requires p > 0 && Divides(p, y + z - s) && Divides(p, s * s - q)
    requires Divides(p, y * y - g) && Divides(p, z * z - d)
    requires Divides(p, q - g - m1) && Divides(p, m1 - d - m2)
    ensures Divides(p, m2 - 2 * y * z)
  {
    CongMul(p, y + z, s, y + z, s);
    CongTrans(p, (y + z) * (y + z), s * s, q);
    CongAdd(p, (y + z) * (y + z), q, y * y, g);
    CongTrans(p, (y + z) * (y + z) - y * y, q - g, m1);
    CongAdd(p, (y + z) * (y + z) - y * y, m1, z * z, d);
    CongTrans(p, (y + z) * (y + z) - y * y - z * z, m1 - d, m2);
    assert (y + z) * (y + z) - y * y - z * z == 2 * y * z;
  }

  /** P - P is the identity in Jacobian coordinates: equal points give the
      same U, and either S differs (so H = 0 and Z3 = 0) or Y = 0 and
      doubling gives Z3 = 2YZ = 0. */
  lemma JSubSelf(J: JPoint)
    requires ValidJ(J) && IsPrime(J.curve.field.p)
    ensures JEq(J, J) && IsZero(JAdd(J, JNeg(J)))
  {
    var p := J.curve.field.p;
    var Q := JNeg(J);
    JNegLaws(J);
    if !IsZero(J) {
      var zz := Power(J.z, 2);
      var u1 := Times(J.x, zz);
      assert Equal(u1, u1);
      var s1 := Times(Times(J.y, J.z), zz);
      var s2 := Times(Times(Q.y, J.z), zz);
      if Equal(s1, s2) {
        EqualSpec(s1, s2);
        TwiceYZ(J, zz, s1, s2);
        DoubleZ(J);
        CongTrans(p, JDouble(J).z.x, 2 * J.y.x * J.z.x, 0);
        ZeroResidue(JDouble(J).z);
      } else {
        var h := Minus(u1, u1);
        SelfMinus(u1);
        var w := Minus(Minus(Power(Plus(J.z, J.z), 2), zz), zz);
        ZeroResidue(Times(w, h));
      }
    }
  }

  /** Y Z Z^2 and -Y Z Z^2 agree only when 2YZ = 0. */
  lemma TwiceYZ(J: JPoint, zz: Elem, s1: Elem, s2: Elem)
    requires ValidJ(J) && IsPrime(J.curve.field.p) && !IsZero(J) && zz == Power(J.z, 2)
    requires s1 == Times(Times(J.y, J.z), zz) && s2 == Times(Times(JNeg(J).y, J.z), zz)
    requires Divides(J.curve.field.p, s1.x - s2.x)
    ensures Divides(J.curve.field.p, 2 * J.y.x * J.z.x)
  {
    var p := J.curve.field.p;
    JNegLaws(J);
    var t1, t2 := Times(J.y, J.z), Times(JNeg(J).y, J.z);
    var y, z := J.y.x, J.z.x;
    Opposite(p, y, z, zz.x, JNeg(J).y.x, t1.x, t2.x, s1.x, s2.x);
    PrimeFactor(p, 2 * y * z, zz.x);
    PowerNonZero(J.z, 2);
    ModUnique(zz.x, p, 0, zz.x);
  }

  lemma Opposite(p: int, y: int, z: int, zz: int, ny: int, t1: int, t2: int, s1: int, s2: int)
    requires p > 0 && Divides(p, ny + y)
    requires Divides(p, y * z - t1) && Divides(p, t1 * zz - s1)
    requires Divides(p, ny * z - t2) && Divides(p, t2 * zz - s2)
    requires Divides(p, s1 - s2)
    ensures Divides(p, (2 * y * z) * zz)
  {
    var w := z * zz;
    ProductChain(p, y, z, t1, zz, s1);
    ProductChain(p, ny, z, t2, zz, s2);
    DividesScaled(p, ny + y, w);
    OppositeSum(p, y * w, s1, ny * w, s2, (ny + y) * w);
    assert (ny + y) * w - ny * w == y * w;
    assert y * w + y * w == (2 * y * z) * zz;
  }

  /** a*b = t and t*k = s give a*(b*k) = s. */
  lemma ProductChain(p: int, a: int, b: int, t: int, k: int, s: int)
    requires p > 0 && Divides(p, a * b - t) && Divides(p, t * k - s)
    ensures Divides(p, a * (b * k) - s)
  {
    DividesScaled(p, a * b - t, k);
    DividesSum(p, (a * b - t) * k, t * k - s);
    assert (a * b - t) * k + (t * k - s) == a * (b * k) - s;
  }

  lemma OppositeSum(p: int, u: int, s1: int, v: int, s2: int, m: int)
    requires p > 0 && Divides(p, u - s1) && Divides(p, v - s2) && Divides(p, s1 - s2) && Divides(p, m)
    ensures Divides(p, u + (m - v))
  {
    DividesSum(p, u - s1, v - s2);
    DividesSum(p, (u - s1) - (v - s2), s1 - s2);
    DividesSum(p, (u - s1) - (v - s2) + (s1 - s2), m);
  }
}
