/** `Curve`, `Point` and the `PointOps` helpers of
    libtls13/script/generate-ec-test-data.py (lines 196-289): a short
    Weierstrass curve y^2 = x^3 + ax + b over a field, and its affine
    points with the chord-and-tangent law. */
module Curves {
  import opened Results
  import opened Modular
  import opened PrimeField
  import opened FieldElements
  import CurveAlgebra
  import SquareRoot
  import Numerals

  datatype Curve = Curve(a: Elem, b: Elem, field: Field)

  /** What `__post_init__` establishes: a and b are reduced elements of the
      curve's field. */
  predicate ValidCurve(c: Curve)
  {
    Canonical(c.a) && Canonical(c.b) && c.a.field == c.field && c.b.field == c.field
  }

  /** An operand as the constructors can be handed it: an element is taken
      to be one the script built, that is reduced. */
  predicate WellFormed(v: Value)
  {
    v.ElemValue? ==> Canonical(v.e)
  }

  /** `Curve(a, b, field)`: both coefficients go through `to_field_element`,
      a first. */
  function MakeCurve(a: Value, b: Value, F: Field): (r: Result<Curve, FieldError>)
    ensures r.Err? <==> a.OtherValue? || b.OtherValue?
    ensures a.OtherValue? ==> r == Err(TypeError(a.typeName))
    ensures r.Ok? ==> r.value.field == F
    ensures r.Ok? && WellFormed(a) && WellFormed(b) ==> ValidCurve(r.value)
  {
    var a' :- ToFieldElement(a, F);
    var b' :- ToFieldElement(b, F);
    Ok(Curve(a', b', F))
  }

  /** `to_field_element(e, field)` for an element. */
  function Into(e: Elem, F: Field): (r: Elem)
    ensures r.field == F && Divides(F.p, e.x - r.x)
    ensures e.field != F || Canonical(e) ==> Canonical(r)
    ensures e.field == F ==> r == e
  {
    ToFieldElement(ElemValue(e), F).value
  }

  datatype Point = Point(x: Elem, y: Elem, curve: Curve, zero: bool)

  /** `Point(x, y, curve, _zero)`: the coordinates are brought into the
      curve's field. */
  function MakePoint(x: Elem, y: Elem, c: Curve, zero: bool): (P: Point)
    ensures P.curve == c && P.zero == zero && P.x.field == c.field && P.y.field == c.field
    ensures Divides(c.field.p, x.x - P.x.x) && Divides(c.field.p, y.x - P.y.x)
    ensures (x.field != c.field || Canonical(x)) && (y.field != c.field || Canonical(y))
      ==> Canonical(P.x) && Canonical(P.y)
  {
    Point(Into(x, c.field), Into(y, c.field), c, zero)
  }

  /** The points the script builds: a valid curve, reduced coordinates in
      its field, and the identity only as `zero()` makes it. */
  predicate ValidPoint(P: Point)
  {
    ValidCurve(P.curve) && Canonical(P.x) && Canonical(P.y)
    && P.x.field == P.curve.field && P.y.field == P.curve.field
    && (P.zero ==> P.x.x == 0 && P.y.x == 0)
  }

  /** Two valid points of one curve. */
  predicate SameCurve(P: Point, Q: Point)
  {
    ValidPoint(P) && ValidPoint(Q) && P.curve == Q.curve
  }

  /** `Point.zero(curve)`. */
  function Zero(c: Curve): (O: Point)
    ensures O.zero && O.curve == c
    ensures ValidCurve(c) ==> ValidPoint(O)
  {
    DividesZero(c.field.p);
    MakePoint(Const(c.field, 0), Const(c.field, 0), c, true)
  }

  /** The curve equation, mod p: the identity is on every curve. */
  predicate OnCurve(P: Point)
  {
    P.zero || Divides(P.curve.field.p, P.y.x * P.y.x - CurveAlgebra.Cubic(P.curve.a.x, P.curve.b.x, P.x.x))
  }

  /** The tangent slope (3x^2 + a) / 2y. */
  function TangentSlope(P: Point): Result<Elem, FieldError>
  {
    Over(Plus(Times(Power(P.x, 2), Const(P.x.field, 3)), P.curve.a), Times(P.y, Const(P.y.field, 2)))
  }

  /** The chord slope (y1 - y2) / (x1 - x2). */
  function ChordSlope(P: Point, Q: Point): Result<Elem, FieldError>
  {
    Over(Minus(P.y, Q.y), Minus(P.x, Q.x))
  }

  /** The line with slope s through P meets the curve again at x = s^2 - x1
      - x2; the result is that point reflected. */
  function Third(P: Point, Q: Point, s: Elem): Point
  {
    var x := Minus(Minus(Power(s, 2), P.x), Q.x);
    var y := Plus(Negate(P.y), Times(s, Minus(P.x, x)));
    MakePoint(x, y, P.curve, false)
  }

  /** `Point.__add__`; ValueError from a division by zero is an error. */
  function Add(P: Point, Q: Point): Result<Point, FieldError>
  {
    if P.zero then Ok(Q)
    else if Q.zero then Ok(P)
    else if Equal(P.x, Q.x) then
      if Equal(P.y, Q.y) then
        var s :- TangentSlope(P);
        Ok(Third(P, Q, s))
      else Ok(Zero(P.curve))
    else
      var s :- ChordSlope(P, Q);
      Ok(Third(P, Q, s))
  }

  /** `Point.__neg__`: y negated, the identity flag kept. */
  function Neg(P: Point): Point
  {
    MakePoint(P.x, Negate(P.y), P.curve, P.zero)
  }

  /** `Point.__eq__`. */
  function Eq(P: Point, Q: Point): bool
  {
    if P.zero && Q.zero then true
    else if P.zero || Q.zero then false
    else Equal(P.x, Q.x) && Equal(P.y, Q.y)
  }

  /** `PointOps.double`. */
  function Double(P: Point): Result<Point, FieldError>
  {
    Add(P, P)
  }

  /** `PointOps.__sub__`. */
  function Sub(P: Point, Q: Point): Result<Point, FieldError>
  {
    Add(P, Neg(Q))
  }

  /** x^3 + a*x + b. */
  function Rhs(c: Curve, x: Elem): Elem
  {
    Plus(Plus(Power(x, 3), Times(c.a, x)), c.b)
  }

  /** `Curve.get_y`, with the `z` its square root settles on and the
      square root's inner loop (`AsWritten` is the script's). */
  function GetY(c: Curve, x: Elem, z: int, v: SquareRoot.Variant): Option<Elem>
    requires Rhs(c, x).x == 0 || x.field.p % 2 == 1
  {
    SquareRoot.ElemSqrt(Rhs(c, x), z, v)
  }

  // ---------------------------------------------------------------------
  // The third point, the slopes.

  lemma ThirdX(p: int, s: int, sq: int, x1: int, m1: int, x2: int, x: int)
    requires p > 0 && Divides(p, s * s - sq) && Divides(p, sq - x1 - m1) && Divides(p, m1 - x2 - x)
    ensures Divides(p, x - (s * s - x1 - x2))
  {
    DividesSum(p, s * s - sq, sq - x1 - m1);
    DividesSum(p, (s * s - sq) + (sq - x1 - m1), m1 - x2 - x);
    DividesSum(p, (s * s - sq) + (sq - x1 - m1) + (m1 - x2 - x), 0) by { DividesZero(p); }
  }

  lemma ThirdY(p: int, s: int, y1: int, n: int, x1: int, x: int, d: int, t: int, y: int)
    requires p > 0 && Divides(p, -y1 - n) && Divides(p, x1 - x - d) && Divides(p, s * d - t)
    requires Divides(p, n + t - y)
    ensures Divides(p, y - (-y1 + s * (x1 - x)))
  {
    DividesScaled(p, x1 - x - d, s);
    assert y - (-y1 + s * (x1 - x)) == -((n + t - y) + (-y1 - n) + (s * d - t) + (x1 - x - d) * s);
    DividesSum(p, n + t - y, -y1 - n);
    DividesSum(p, (n + t - y) + (-y1 - n), s * d - t);
    DividesSum(p, (n + t - y) + (-y1 - n) + (s * d - t), (x1 - x - d) * s);
    DividesSum(p, (n + t - y) + (-y1 - n) + (s * d - t) + (x1 - x - d) * s, 0) by { DividesZero(p); }
  }

  /** The result of the law is a valid point other than the identity, at
      x3 = s^2 - x1 - x2 and y3 = -y1 + s(x1 - x3). */
  lemma ThirdSpec(P: Point, Q: Point, s: Elem)
    requires SameCurve(P, Q) && Canonical(s) && s.field == P.curve.field
    ensures ValidPoint(Third(P, Q, s)) && Third(P, Q, s).curve == P.curve && !Third(P, Q, s).zero
    ensures Divides(P.curve.field.p, Third(P, Q, s).x.x - (s.x * s.x - P.x.x - Q.x.x))
    ensures Divides(P.curve.field.p, Third(P, Q, s).y.x - (-P.y.x + s.x * (P.x.x - Third(P, Q, s).x.x)))
  {
    var p := P.curve.field.p;
    var sq := Power(s, 2);
    SquareRoot.PowTwo(s.x);
    var m1 := Minus(sq, P.x);
    var x := Minus(m1, Q.x);
    ThirdX(p, s.x, sq.x, P.x.x, m1.x, Q.x.x, x.x);
    var n := Negate(P.y);
    var d := Minus(P.x, x);
    var t := Times(s, d);
    var y := Plus(n, t);
    ThirdY(p, s.x, P.y.x, n.x, P.x.x, x.x, d.x, t.x, y.x);
  }

  /** Distinct x: the chord slope exists and s (x1 - x2) = y1 - y2. */
  lemma ChordSlopeSpec(P: Point, Q: Point)
    requires SameCurve(P, Q) && IsPrime(P.curve.field.p) && P.x != Q.x
    ensures ChordSlope(P, Q).Ok?
    ensures var s := ChordSlope(P, Q).value;
      Canonical(s) && s.field == P.curve.field
      && Divides(P.curve.field.p, s.x * (P.x.x - Q.x.x) - (P.y.x - Q.y.x))
  {
    var p := P.curve.field.p;
    var n, d := Minus(P.y, Q.y), Minus(P.x, Q.x);
    DistinctDifference(P.x, Q.x);
    OverLaws(n, d);
    var s := ChordSlope(P, Q).value;
    SlopeEquation(p, s.x, d.x, n.x, P.x.x - Q.x.x, P.y.x - Q.y.x);
  }

  /** The difference of two distinct reduced elements is not 0. */
  lemma DistinctDifference(u: Elem, w: Elem)
    requires Canonical(u) && Canonical(w) && u.field == w.field && u != w
    ensures Minus(u, w).x != 0
  {
    var d := Minus(u, w);
    if d.x == 0 {
      SameElem(u, w);
    }
  }

  lemma SlopeEquation(p: int, s: int, d: int, n: int, dx: int, dy: int)
    requires p > 0 && Divides(p, s * d - n) && Divides(p, dx - d) && Divides(p, dy - n)
    ensures Divides(p, s * dx - dy)
  {
    DividesScaled(p, dx - d, s);
    assert s * dx - dy == (s * d - n) + (dx - d) * s - (dy - n);
    DividesSum(p, s * d - n, (dx - d) * s);
    DividesSum(p, (s * d - n) + (dx - d) * s, dy - n);
  }

  /** In an odd prime field, 2y = 0 only for y = 0. */
  lemma TwiceZero(p: int, y: int)
    requires IsPrime(p) && p % 2 == 1 && 0 <= y < p
    ensures Divides(p, 2 * y) <==> y == 0
  {
    if y == 0 {
      DividesZero(p);
    } else if Divides(p, 2 * y) {
      ModUnique(2, p, 0, 2);
      ModUnique(y, p, 0, y);
      Euclid(2, y, p);
    }
  }

  /** The tangent slope exists exactly when y is not 0, and then
      s * 2y = 3x^2 + a. */
  lemma TangentSlopeSpec(P: Point)
    requires ValidPoint(P) && IsPrime(P.curve.field.p) && P.curve.field.p % 2 == 1
    ensures TangentSlope(P).Ok? <==> P.y.x != 0
    ensures TangentSlope(P).Err? ==> TangentSlope(P) == Err(NotInvertible(0))
    ensures TangentSlope(P).Ok? ==> (var s := TangentSlope(P).value;
      Canonical(s) && s.field == P.curve.field
      && Divides(P.curve.field.p, s.x * (2 * P.y.x) - (3 * P.x.x * P.x.x + P.curve.a.x)))
  {
    var p := P.curve.field.p;
    var x2 := Power(P.x, 2);
    var three := Const(P.x.field, 3);
    var n := Plus(Times(x2, three), P.curve.a);
    var two := Const(P.y.field, 2);
    var d := Times(P.y, two);
    TwiceY(p, P.y.x, two.x, d.x);
    OverLaws(n, d);
    if TangentSlope(P).Ok? {
      var s := TangentSlope(P).value;
      SquareRoot.PowTwo(P.x.x);
      TangentNumerator(p, P.x.x, x2.x, three.x, Times(x2, three).x, P.curve.a.x, n.x);
      TangentSlopeEquation(p, s.x, d.x, n.x, P.y.x, 3 * P.x.x * P.x.x + P.curve.a.x);
    }
  }

  /** The tangent's denominator d = y * 2 is 0 exactly when y is. */
  lemma TwiceY(p: int, y: int, two: int, d: int)
    requires IsPrime(p) && p % 2 == 1 && 0 <= y < p && 0 <= d < p
    requires Divides(p, 2 - two) && Divides(p, y * two - d)
    ensures Divides(p, 2 * y - d) && (d == 0 <==> y == 0)
  {
    DividesScaled(p, 2 - two, y);
    DividesSum(p, y * two - d, (2 - two) * y);
    assert 2 * y - d == (y * two - d) + (2 - two) * y;
    TwiceZero(p, y);
    DividesSum(p, 2 * y - d, 0) by { DividesZero(p); }
    if d != 0 && y == 0 {
      SameResidue(p, d, 0);
    }
  }

  lemma TangentNumerator(p: int, x: int, x2: int, three: int, t: int, a: int, n: int)
    requires p > 0 && Divides(p, x * x - x2) && Divides(p, 3 - three) && Divides(p, x2 * three - t)
    requires Divides(p, t + a - n)
    ensures Divides(p, n - (3 * x * x + a))
  {
    DividesScaled(p, x * x - x2, 3);
    DividesScaled(p, 3 - three, x2);
    assert n - (3 * x * x + a) == -((t + a - n) + (x2 * three - t) + (3 - three) * x2 + (x * x - x2) * 3);
    DividesSum(p, t + a - n, x2 * three - t);
    DividesSum(p, (t + a - n) + (x2 * three - t), (3 - three) * x2);
    DividesSum(p, (t + a - n) + (x2 * three - t) + (3 - three) * x2, (x * x - x2) * 3);
    DividesSum(p, (t + a - n) + (x2 * three - t) + (3 - three) * x2 + (x * x - x2) * 3, 0) by { DividesZero(p); }
  }

  lemma TangentSlopeEquation(p: int, s: int, d: int, n: int, y: int, num: int)
    requires p > 0 && Divides(p, s * d - n) && Divides(p, 2 * y - d) && Divides(p, n - num)
    ensures Divides(p, s * (2 * y) - num)
  {
    DividesScaled(p, 2 * y - d, s);
    assert s * (2 * y) - num == (s * d - n) + (2 * y - d) * s + (n - num);
    DividesSum(p, s * d - n, (2 * y - d) * s);
    DividesSum(p, (s * d - n) + (2 * y - d) * s, n - num);
  }

  lemma DistinctNotCongruent(p: int, u: int, w: int)
    requires 0 <= u < p && 0 <= w < p && u != w
    ensures (u - w) % p != 0
  {
    if (u - w) % p == 0 {
      SameResidue(p, u, w);
    }
  }

  // ---------------------------------------------------------------------
  // The law.

  /** The identity is neutral on both sides (on the right, for any point
      that is not itself flagged as the identity). */
  lemma AddIdentity(c: Curve, P: Point)
    ensures Add(Zero(c), P) == Ok(P)
    ensures !P.zero ==> Add(P, Zero(c)) == Ok(P)
  {
  }

  /** Negation keeps x and the identity flag, negates y, stays on the
      curve and undoes itself. */
  lemma NegLaws(P: Point)
    requires ValidPoint(P)
    ensures ValidPoint(Neg(P)) && Neg(P).curve == P.curve && Neg(P).zero == P.zero && Neg(P).x == P.x
    ensures Divides(P.curve.field.p, Neg(P).y.x + P.y.x)
    ensures Neg(Neg(P)) == P
    ensures OnCurve(P) ==> OnCurve(Neg(P))
  {
    var p := P.curve.field.p;
    var n := Negate(P.y);
    PlusLaws(P.y, P.y);
    if P.zero {
      DividesSum(p, -P.y.x - n.x, 0) by { DividesZero(p); }
      SameResidue(p, n.x, 0);
    }
    DividesSum(p, -P.y.x - n.x, 0) by { DividesZero(p); }
    assert n.x + P.y.x == -(-P.y.x - n.x);
    if OnCurve(P) && !P.zero {
      var e := CurveAlgebra.Cubic(P.curve.a.x, P.curve.b.x, P.x.x);
      DividesSum(p, n.x + P.y.x, 0) by { DividesZero(p); }
      assert n.x - (-P.y.x) == n.x + P.y.x;
      CurveAlgebra.SquareCongruent(p, n.x, -P.y.x);
      assert (-P.y.x) * (-P.y.x) == P.y.x * P.y.x;
      DividesSum(p, n.x * n.x - P.y.x * P.y.x, P.y.x * P.y.x - e);
      assert n.x * n.x - e == (n.x * n.x - P.y.x * P.y.x) + (P.y.x * P.y.x - e);
    }
  }

  /** In an odd prime field the law fails only when doubling a point with
      y = 0 (the tangent is vertical; the script raises ValueError). */
  lemma AddErrors(P: Point, Q: Point)
    requires SameCurve(P, Q) && IsPrime(P.curve.field.p) && P.curve.field.p % 2 == 1
    ensures Add(P, Q).Err? <==> !P.zero && P == Q && P.y.x == 0
    ensures Add(P, Q).Err? ==> Add(P, Q) == Err(NotInvertible(0))
  {
    if !P.zero && !Q.zero {
      if P.x != Q.x {
        ChordSlopeSpec(P, Q);
      } else if P.y == Q.y {
        TangentSlopeSpec(P);
      }
    }
  }

  /** P - P, that is P + (-P), is the identity, unless y = 0: then -P = P
      and the script's doubling divides by zero. */
  lemma SubSelf(P: Point)
    requires ValidPoint(P) && IsPrime(P.curve.field.p) && P.curve.field.p % 2 == 1 && !P.zero
    ensures Sub(P, P) == Add(P, Neg(P))
    ensures P.y.x != 0 ==> Sub(P, P) == Ok(Zero(P.curve))
    ensures P.y.x == 0 ==> Neg(P) == P && Sub(P, P) == Err(NotInvertible(0))
  {
    var p := P.curve.field.p;
    NegLaws(P);
    var n := Neg(P).y;
    if P.y.x == 0 {
      DividesSum(p, n.x + P.y.x, 0) by { DividesZero(p); }
      SameResidue(p, n.x, 0);
      AddErrors(P, P);
    } else {
      TwiceZero(p, P.y.x);
    }
  }

  /** The law keeps valid points on the curve. */
  lemma AddClosed(P: Point, Q: Point)
    requires SameCurve(P, Q) && IsPrime(P.curve.field.p) && P.curve.field.p % 2 == 1
    requires OnCurve(P) && OnCurve(Q)
    ensures Add(P, Q).Ok? ==> ValidPoint(Add(P, Q).value) && Add(P, Q).value.curve == P.curve && OnCurve(Add(P, Q).value)
  {
    if !P.zero && !Q.zero {
      if P.x != Q.x {
        ChordClosed(P, Q);
      } else if P.y == Q.y && P.y.x != 0 {
        TangentClosed(P);
      }
    }
  }

  lemma ChordClosed(P: Point, Q: Point)
    requires SameCurve(P, Q) && IsPrime(P.curve.field.p) && OnCurve(P) && OnCurve(Q)
    requires !P.zero && !Q.zero && P.x != Q.x
    ensures ChordSlope(P, Q).Ok?
    ensures var R := Third(P, Q, ChordSlope(P, Q).value);
      ValidPoint(R) && R.curve == P.curve && OnCurve(R)
  {
    ChordSlopeSpec(P, Q);
    var s := ChordSlope(P, Q).value;
    ThirdSpec(P, Q, s);
    ThirdOnChord(P, Q, s, Third(P, Q, s), P.curve.field.p, P.x.x, P.y.x, Q.x.x, Q.y.x);
  }

  /** The chord's third point, once its coordinates are known as congruences. */
  lemma ThirdOnChord(P: Point, Q: Point, s: Elem, R: Point, p: int, x1: int, y1: int, x2: int, y2: int)
    requires SameCurve(P, Q) && p == P.curve.field.p && IsPrime(p) && OnCurve(P) && OnCurve(Q)
    requires !P.zero && !Q.zero && P.x != Q.x && !R.zero && R.curve == P.curve
    requires x1 == P.x.x && y1 == P.y.x && x2 == Q.x.x && y2 == Q.y.x
    requires Divides(p, s.x * (x1 - x2) - (y1 - y2))
    requires Divides(p, R.x.x - (s.x * s.x - x1 - x2))
    requires Divides(p, R.y.x - (-y1 + s.x * (x1 - R.x.x)))
    ensures OnCurve(R)
  {
    DistinctNotCongruent(p, x1, x2);
    CurveAlgebra.ChordOnCurve(p, P.curve.a.x, P.curve.b.x, x1, y1, x2, y2, s.x, R.x.x, R.y.x);
  }

  lemma TangentClosed(P: Point)
    requires ValidPoint(P) && IsPrime(P.curve.field.p) && P.curve.field.p % 2 == 1 && OnCurve(P)
    requires !P.zero && P.y.x != 0
    ensures TangentSlope(P).Ok?
    ensures var R := Third(P, P, TangentSlope(P).value);
      ValidPoint(R) && R.curve == P.curve && OnCurve(R)
  {
    var p := P.curve.field.p;
    TangentSlopeSpec(P);
    var s := TangentSlope(P).value;
    ThirdSpec(P, P, s);
    var R := Third(P, P, s);
    CurveAlgebra.TangentOnCurve(p, P.curve.a.x, P.curve.b.x, P.x.x, P.y.x, s.x, R.x.x, R.y.x);
  }

  /** Two slopes of one chord are congruent. */
  lemma SlopeUnique(p: int, s: int, s': int, dx: int, dy: int)
    requires IsPrime(p) && Divides(p, s * dx - dy) && Divides(p, s' * (-dx) - (-dy)) && dx % p != 0
    ensures Divides(p, s - s')
  {
    assert (s - s') * dx == (s * dx - dy) + (s' * (-dx) - (-dy));
    DividesSum(p, s * dx - dy, s' * (-dx) - (-dy));
    Euclid(s - s', dx, p);
  }

  /** The chord lands at the same y from either end. */
  lemma ChordSymmetricX(p: int, s: int, x1: int, x2: int, x3: int, x3': int)
    requires p > 0 && Divides(p, x3 - (s * s - x1 - x2)) && Divides(p, x3' - (s * s - x2 - x1))
    ensures Divides(p, x3 - x3')
  {
    assert s * s - x1 - x2 == s * s - x2 - x1;
    DividesSum(p, x3 - (s * s - x1 - x2), x3' - (s * s - x1 - x2));
  }

  lemma ChordSymmetricY(p: int, s: int, x1: int, y1: int, x2: int, y2: int, x3: int, y3: int, y3': int)
    requires p > 0 && Divides(p, s * (x1 - x2) - (y1 - y2))
    requires Divides(p, y3 - (-y1 + s * (x1 - x3))) && Divides(p, y3' - (-y2 + s * (x2 - x3)))
    ensures Divides(p, y3 - y3')
  {
    assert y3 - y3' == (y3 - (-y1 + s * (x1 - x3))) - (y3' - (-y2 + s * (x2 - x3))) + (s * (x1 - x2) - (y1 - y2));
    DividesSum(p, y3 - (-y1 + s * (x1 - x3)), y3' - (-y2 + s * (x2 - x3)));
    DividesSum(p, (y3 - (-y1 + s * (x1 - x3))) - (y3' - (-y2 + s * (x2 - x3))), s * (x1 - x2) - (y1 - y2));
  }

  /** The law is commutative. */
  lemma AddCommutes(P: Point, Q: Point)
    requires SameCurve(P, Q) && IsPrime(P.curve.field.p) && P.curve.field.p % 2 == 1
    ensures Add(P, Q) == Add(Q, P)
  {
    if !P.zero && !Q.zero && P.x != Q.x {
      ChordCommutes(P, Q);
    }
  }

  lemma ChordCommutes(P: Point, Q: Point)
    requires SameCurve(P, Q) && IsPrime(P.curve.field.p) && !P.zero && !Q.zero && P.x != Q.x
    ensures ChordSlope(P, Q).Ok? && ChordSlope(P, Q) == ChordSlope(Q, P)
    ensures Third(P, Q, ChordSlope(P, Q).value) == Third(Q, P, ChordSlope(P, Q).value)
  {
    ChordSlopeSymmetric(P, Q);
    ThirdSymmetric(P, Q, ChordSlope(P, Q).value);
  }

  lemma ChordSlopeSymmetric(P: Point, Q: Point)
    requires SameCurve(P, Q) && IsPrime(P.curve.field.p) && P.x != Q.x
    ensures ChordSlope(P, Q).Ok? && ChordSlope(P, Q) == ChordSlope(Q, P)
    ensures Divides(P.curve.field.p, ChordSlope(P, Q).value.x * (P.x.x - Q.x.x) - (P.y.x - Q.y.x))
  {
    var p := P.curve.field.p;
    ChordSlopeSpec(P, Q);
    ChordSlopeSpec(Q, P);
    var s, s' := ChordSlope(P, Q).value, ChordSlope(Q, P).value;
    DistinctNotCongruent(p, P.x.x, Q.x.x);
    assert Q.x.x - P.x.x == -(P.x.x - Q.x.x) && Q.y.x - P.y.x == -(P.y.x - Q.y.x);
    SlopeUnique(p, s.x, s'.x, P.x.x - Q.x.x, P.y.x - Q.y.x);
    SameElem(s, s');
  }

  lemma ThirdSymmetric(P: Point, Q: Point, s: Elem)
    requires SameCurve(P, Q) && Canonical(s) && s.field == P.curve.field
    requires Divides(P.curve.field.p, s.x * (P.x.x - Q.x.x) - (P.y.x - Q.y.x))
    ensures Third(P, Q, s) == Third(Q, P, s)
  {
    ThirdSpec(P, Q, s);
    ThirdSpec(Q, P, s);
    ThirdsAgree(P, Q, s, Third(P, Q, s), Third(Q, P, s));
  }

  /** Two third points of the same chord, known by their congruences, agree. */
  lemma ThirdsAgree(P: Point, Q: Point, s: Elem, R: Point, R': Point)
    requires SameCurve(P, Q) && Canonical(s) && s.field == P.curve.field
    requires Divides(P.curve.field.p, s.x * (P.x.x - Q.x.x) - (P.y.x - Q.y.x))
    requires ValidPoint(R) && R.curve == P.curve && !R.zero
    requires ValidPoint(R') && R'.curve == P.curve && !R'.zero
    requires Divides(P.curve.field.p, R.x.x - (s.x * s.x - P.x.x - Q.x.x))
    requires Divides(P.curve.field.p, R.y.x - (-P.y.x + s.x * (P.x.x - R.x.x)))
    requires Divides(P.curve.field.p, R'.x.x - (s.x * s.x - Q.x.x - P.x.x))
    requires Divides(P.curve.field.p, R'.y.x - (-Q.y.x + s.x * (Q.x.x - R'.x.x)))
    ensures R == R'
  {
    var p := P.curve.field.p;
    ChordSymmetricX(p, s.x, P.x.x, Q.x.x, R.x.x, R'.x.x);
    SameElem(R.x, R'.x);
    ChordSymmetricY(p, s.x, P.x.x, P.y.x, Q.x.x, Q.y.x, R.x.x, R.y.x, R'.y.x);
    SameElem(R.y, R'.y);
  }

  /** On valid points of one curve, `__eq__` is equality: all identities
      are one, and other points compare by their reduced coordinates. */
  lemma EqSpec(P: Point, Q: Point)
    requires SameCurve(P, Q)
    ensures Eq(P, Q) <==> P == Q
  {
  }

  /** x^3 + ax + b, computed on elements, is the cubic of the values. */
  lemma RhsSpec(c: Curve, x: Elem)
    requires ValidCurve(c) && Canonical(x) && x.field == c.field
    ensures Canonical(Rhs(c, x)) && Rhs(c, x).field == c.field
    ensures Divides(c.field.p, Rhs(c, x).x - CurveAlgebra.Cubic(c.a.x, c.b.x, x.x))
  {
    var p := c.field.p;
    var cube, ax := Power(x, 3), Times(c.a, x);
    var u := Plus(cube, ax);
    var r := Plus(u, c.b);
    assert Numerals.Pow(x.x, 3) == x.x * x.x * x.x by {
      assert Numerals.Pow(x.x, 3) == x.x * Numerals.Pow(x.x, 2);
      SquareRoot.PowTwo(x.x);
    }
    assert r.x - CurveAlgebra.Cubic(c.a.x, c.b.x, x.x)
      == -((u.x + c.b.x - r.x) + (cube.x + ax.x - u.x) + (x.x * x.x * x.x - cube.x) + (c.a.x * x.x - ax.x));
    DividesSum(p, u.x + c.b.x - r.x, cube.x + ax.x - u.x);
    DividesSum(p, (u.x + c.b.x - r.x) + (cube.x + ax.x - u.x), x.x * x.x * x.x - cube.x);
    DividesSum(p, (u.x + c.b.x - r.x) + (cube.x + ax.x - u.x) + (x.x * x.x * x.x - cube.x), c.a.x * x.x - ax.x);
    DividesSum(p, (u.x + c.b.x - r.x) + (cube.x + ax.x - u.x) + (x.x * x.x * x.x - cube.x) + (c.a.x * x.x - ax.x), 0) by { DividesZero(p); }
  }

  /** A y that `get_y` returns makes (x, y) a point of the curve, in
      either variant. One comes back whenever x^3 + ax + b is 0, or a
      residue with p = 3 (mod 4), whatever the variant and z; with the
      intended loop, whenever it is a residue and z a non-residue. None
      comes back when it is neither 0 nor a residue. */
  lemma GetYSpec(c: Curve, x: Elem, z: int, v: SquareRoot.Variant)
    requires ValidCurve(c) && Canonical(x) && x.field == c.field
    requires IsPrime(c.field.p) && c.field.p % 2 == 1 && 2 <= z < c.field.p
    ensures GetY(c, x, z, v).Some? ==> (var P := MakePoint(x, GetY(c, x, z, v).value, c, false);
      ValidPoint(P) && P.x == x && OnCurve(P))
    ensures Rhs(c, x).x == 0 ==> GetY(c, x, z, v).Some?
    ensures c.field.p % 4 == 3 && Legendre(c.field, Rhs(c, x).x) == 1 ==> GetY(c, x, z, v).Some?
    ensures v == SquareRoot.Corrected && Legendre(c.field, Rhs(c, x).x) == 1 && Legendre(c.field, z) == c.field.p - 1 ==> GetY(c, x, z, v).Some?
    ensures Rhs(c, x).x != 0 && Legendre(c.field, Rhs(c, x).x) != 1 ==> GetY(c, x, z, v).None?
  {
    RhsSpec(c, x);
    SquareRoot.ElemSqrtSpec(Rhs(c, x), z, v);
    if GetY(c, x, z, v).Some? {
      RootOnCurve(c, x, GetY(c, x, z, v).value);
    }
  }

  /** A y with y * y = x^3 + ax + b makes (x, y) a point of the curve. */
  lemma RootOnCurve(c: Curve, x: Elem, y: Elem)
    requires ValidCurve(c) && Canonical(x) && x.field == c.field
    requires Canonical(y) && y.field == c.field && Times(y, y) == Rhs(c, x)
    ensures var P := MakePoint(x, y, c, false); ValidPoint(P) && P.x == x && OnCurve(P)
  {
    var p := c.field.p;
    var e := Rhs(c, x);
    RhsSpec(c, x);
    var t := Times(y, y);
    var k := CurveAlgebra.Cubic(c.a.x, c.b.x, x.x);
    assert y.x * y.x - k == (y.x * y.x - t.x) + (e.x - k);
    DividesSum(p, y.x * y.x - t.x, e.x - k);
  }
}
