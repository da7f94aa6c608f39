/** The algebra behind the affine group law of
    libtls13/script/generate-ec-test-data.py (lines 262-281), on integers
    modulo p: the line through two points of y^2 = x^3 + ax + b, or the
    tangent at one, meets the curve a third time at the point the law
    reflects. */
module CurveAlgebra {
  import opened Modular

  /** The right-hand side x^3 + ax + b. */
  function Cubic(a: int, b: int, x: int): int
  {
    x * x * x + a * x + b
  }

  /** The line through (x1, y1) with slope s. */
  function Line(x1: int, y1: int, s: int, x: int): int
  {
    y1 + s * (x - x1)
  }

  /** How far the line is from the curve at x: zero mod p where they meet. */
  function Gap(a: int, b: int, x1: int, y1: int, s: int, x: int): int
  {
    Cubic(a, b, x) - Line(x1, y1, s, x) * Line(x1, y1, s, x)
  }

  function Poly(c2: int, c1: int, c0: int, x: int): int
  {
    x * x * x + c2 * x * x + c1 * x + c0
  }

  /** The gap is a monic cubic whose x^2 coefficient is -s^2. */
  lemma GapPoly(a: int, b: int, x1: int, y1: int, s: int, x: int)
    ensures var k := y1 - s * x1;
      Gap(a, b, x1, y1, s, x) == Poly(-(s * s), a - 2 * s * k, b - k * k, x)
  {
    var k := y1 - s * x1;
    assert Line(x1, y1, s, x) == s * x + k;
    assert (s * x + k) * (s * x + k) == s * s * x * x + 2 * s * k * x + k * k;
  }

  lemma PolyDiff(c2: int, c1: int, c0: int, u: int, v: int)
    ensures Poly(c2, c1, c0, u) - Poly(c2, c1, c0, v)
      == (u - v) * (u * u + u * v + v * v + c2 * (u + v) + c1)
  {
    var d := u - v;
    CubeDiff(u, v);
    ScaledSquareDiff(c2, u, v);
    assert c1 * u - c1 * v == d * c1;
    assert Poly(c2, c1, c0, u) - Poly(c2, c1, c0, v)
      == (u * u * u - v * v * v) + (c2 * u * u - c2 * v * v) + (c1 * u - c1 * v);
    Distribute3(d, u * u + u * v + v * v, c2 * (u + v), c1);
  }

  lemma CubeDiff(u: int, v: int)
    ensures u * u * u - v * v * v == (u - v) * (u * u + u * v + v * v)
  {
  }

  lemma ScaledSquareDiff(c: int, u: int, v: int)
    ensures c * u * u - c * v * v == (u - v) * (c * (u + v))
  {
    assert u * u - v * v == (u - v) * (u + v);
    assert c * u * u - c * v * v == c * (u * u - v * v);
  }

  lemma Distribute3(d: int, a: int, b: int, c: int)
    ensures d * a + d * b + d * c == d * (a + b + c)
  {
  }

  /** The divided difference of the gap at x1 and x2. */
  function Slope12(a: int, x1: int, y1: int, x2: int, s: int): int
  {
    x1 * x1 + x1 * x2 + x2 * x2 - s * s * (x1 + x2) + (a - 2 * s * (y1 - s * x1))
  }

  lemma DividedDifferences(c2: int, c1: int, x1: int, x2: int, x3: int)
    requires x3 + x2 + x1 + c2 == 0
    ensures x3 * x3 + x3 * x1 + x1 * x1 + c2 * (x3 + x1) + c1
      == x1 * x1 + x1 * x2 + x2 * x2 + c2 * (x1 + x2) + c1
  {
    assert x3 * x3 + x3 * x1 + x1 * x1 + c2 * (x3 + x1) - (x1 * x1 + x1 * x2 + x2 * x2 + c2 * (x1 + x2))
      == (x3 - x2) * (x3 + x2 + x1 + c2);
  }

  /** With x3 = s^2 - x1 - x2 the gap at x3 differs from the gap at x1 by a
      multiple of the divided difference, which also relates the gaps at x1
      and x2. */
  lemma ChordIdentity(a: int, b: int, x1: int, y1: int, x2: int, s: int, x3: int)
    requires x3 == s * s - x1 - x2
    ensures Gap(a, b, x1, y1, s, x3) == Slope12(a, x1, y1, x2, s) * (x3 - x1) + Gap(a, b, x1, y1, s, x1)
    ensures Gap(a, b, x1, y1, s, x1) - Gap(a, b, x1, y1, s, x2) == Slope12(a, x1, y1, x2, s) * (x1 - x2)
  {
    GapAtThird(a, b, x1, y1, x2, s, x3);
    GapAtSecond(a, b, x1, y1, x2, s);
  }

  lemma GapAtThird(a: int, b: int, x1: int, y1: int, x2: int, s: int, x3: int)
    requires x3 == s * s - x1 - x2
    ensures Gap(a, b, x1, y1, s, x3) == Slope12(a, x1, y1, x2, s) * (x3 - x1) + Gap(a, b, x1, y1, s, x1)
  {
    var k := y1 - s * x1;
    var c2, c1, c0 := -(s * s), a - 2 * s * k, b - k * k;
    GapPoly(a, b, x1, y1, s, x1);
    GapPoly(a, b, x1, y1, s, x3);
    PolyDiff(c2, c1, c0, x3, x1);
    DividedDifferences(c2, c1, x1, x2, x3);
    var alpha := x1 * x1 + x1 * x2 + x2 * x2 + c2 * (x1 + x2) + c1;
    assert alpha == Slope12(a, x1, y1, x2, s);
  }

  lemma GapAtSecond(a: int, b: int, x1: int, y1: int, x2: int, s: int)
    ensures Gap(a, b, x1, y1, s, x1) - Gap(a, b, x1, y1, s, x2) == Slope12(a, x1, y1, x2, s) * (x1 - x2)
  {
    var k := y1 - s * x1;
    var c2, c1, c0 := -(s * s), a - 2 * s * k, b - k * k;
    GapPoly(a, b, x1, y1, s, x1);
    GapPoly(a, b, x1, y1, s, x2);
    PolyDiff(c2, c1, c0, x1, x2);
    var alpha := x1 * x1 + x1 * x2 + x2 * x2 + c2 * (x1 + x2) + c1;
    assert alpha == Slope12(a, x1, y1, x2, s);
  }

  /** With x3 = s^2 - 2 x1 the gap at x3 differs from the gap at x1 by a
      multiple of the derivative of the gap at x1. */
  lemma TangentIdentity(a: int, b: int, x1: int, y1: int, s: int)
    ensures Gap(a, b, x1, y1, s, s * s - 2 * x1)
      == (3 * x1 * x1 + a - 2 * s * y1) * (s * s - 2 * x1 - x1) + Gap(a, b, x1, y1, s, x1)
  {
  }

  /** The cubic respects congruence. */
  lemma CubicCongruent(p: int, a: int, b: int, u: int, v: int)
    requires p > 0 && Divides(p, u - v)
    ensures Divides(p, Cubic(a, b, u) - Cubic(a, b, v))
  {
    CubicDiff(a, b, u, v);
    DividesScaled(p, u - v, u * u + u * v + v * v + a);
  }

  lemma CubicDiff(a: int, b: int, u: int, v: int)
    ensures Cubic(a, b, u) - Cubic(a, b, v) == (u - v) * (u * u + u * v + v * v + a)
  {
    var q := u * u + u * v + v * v;
    CubeDiff(u, v);
    assert a * u - a * v == (u - v) * a;
    assert (u - v) * q + (u - v) * a == (u - v) * (q + a);
  }

  /** So does squaring. */
  lemma SquareCongruent(p: int, u: int, v: int)
    requires p > 0 && Divides(p, u - v)
    ensures Divides(p, u * u - v * v)
  {
    assert u * u - v * v == (u - v) * (u + v);
    DividesScaled(p, u - v, u + v);
  }

  /** The third point is determined by x3 and the line, up to congruence:
      if the gap vanishes at the exact x3 it vanishes for any x3 congruent
      to it, and the reflected point is on the curve. */
  lemma Reflect(p: int, a: int, b: int, x1: int, y1: int, s: int, e: int, x3: int, y3: int)
    requires p > 0 && Divides(p, Gap(a, b, x1, y1, s, e))
    requires Divides(p, x3 - e) && Divides(p, y3 - (-y1 + s * (x1 - x3)))
    ensures Divides(p, y3 * y3 - Cubic(a, b, x3))
  {
    var y3' := -Line(x1, y1, s, e);
    assert y3 - y3' == (y3 - (-y1 + s * (x1 - x3))) + s * (e - x3);
    DividesSum(p, x3 - e, 0) by { DividesZero(p); }
    DividesScaled(p, -(x3 - e), s);
    assert s * (e - x3) == -(x3 - e) * s;
    DividesSum(p, y3 - (-y1 + s * (x1 - x3)), s * (e - x3));
    SquareCongruent(p, y3, y3');
    CubicCongruent(p, a, b, x3, e);
    assert y3' * y3' == Line(x1, y1, s, e) * Line(x1, y1, s, e);
    assert y3 * y3 - Cubic(a, b, x3)
      == (y3 * y3 - y3' * y3') - (Cubic(a, b, x3) - Cubic(a, b, e)) - Gap(a, b, x1, y1, s, e);
    DividesSum(p, y3 * y3 - y3' * y3', Cubic(a, b, x3) - Cubic(a, b, e));
    DividesSum(p, (y3 * y3 - y3' * y3') - (Cubic(a, b, x3) - Cubic(a, b, e)), Gap(a, b, x1, y1, s, e));
  }

  /** The chord: two points with different x on the curve, s their slope;
      the reflected third point is on the curve. */
  lemma ChordOnCurve(p: int, a: int, b: int, x1: int, y1: int, x2: int, y2: int, s: int, x3: int, y3: int)
    requires IsPrime(p)
    requires Divides(p, y1 * y1 - Cubic(a, b, x1)) && Divides(p, y2 * y2 - Cubic(a, b, x2))
    requires Divides(p, s * (x1 - x2) - (y1 - y2)) && (x1 - x2) % p != 0
    requires Divides(p, x3 - (s * s - x1 - x2)) && Divides(p, y3 - (-y1 + s * (x1 - x3)))
    ensures Divides(p, y3 * y3 - Cubic(a, b, x3))
  {
    var g1, g2 := Gap(a, b, x1, y1, s, x1), Gap(a, b, x1, y1, s, x2);
    var l2 := Line(x1, y1, s, x2);
    // the line passes through both points
    DividesSum(p, y1 * y1 - Cubic(a, b, x1), 0) by { DividesZero(p); }
    assert g1 == -(y1 * y1 - Cubic(a, b, x1));
    assert l2 - y2 == -(s * (x1 - x2) - (y1 - y2));
    DividesSum(p, s * (x1 - x2) - (y1 - y2), 0) by { DividesZero(p); }
    SquareCongruent(p, l2, y2);
    assert g2 == -(y2 * y2 - Cubic(a, b, x2)) - (l2 * l2 - y2 * y2);
    DividesSum(p, y2 * y2 - Cubic(a, b, x2), l2 * l2 - y2 * y2);
    DividesSum(p, -(y2 * y2 - Cubic(a, b, x2)), l2 * l2 - y2 * y2);
    // so the divided difference is 0 mod p
    ChordIdentity(a, b, x1, y1, x2, s, s * s - x1 - x2);
    var alpha := Slope12(a, x1, y1, x2, s);
    DividesSum(p, g1, g2);
    Euclid(alpha, x1 - x2, p);
    DividesScaled(p, alpha, s * s - x1 - x2 - x1);
    DividesSum(p, alpha * (s * s - x1 - x2 - x1), g1);
    Reflect(p, a, b, x1, y1, s, s * s - x1 - x2, x3, y3);
  }

  /** The tangent at a point on the curve, s its slope (s * 2y = 3x^2 + a);
      the reflected second intersection is on the curve. */
  lemma TangentOnCurve(p: int, a: int, b: int, x1: int, y1: int, s: int, x3: int, y3: int)
    requires p > 0
    requires Divides(p, y1 * y1 - Cubic(a, b, x1))
    requires Divides(p, s * (2 * y1) - (3 * x1 * x1 + a))
    requires Divides(p, x3 - (s * s - x1 - x1)) && Divides(p, y3 - (-y1 + s * (x1 - x3)))
    ensures Divides(p, y3 * y3 - Cubic(a, b, x3))
  {
    var e := s * s - 2 * x1;
    var d := 3 * x1 * x1 + a - 2 * s * y1;
    TangentIdentity(a, b, x1, y1, s);
    assert d == -(s * (2 * y1) - (3 * x1 * x1 + a));
    DividesSum(p, s * (2 * y1) - (3 * x1 * x1 + a), 0) by { DividesZero(p); }
    DividesScaled(p, d, e - x1);
    assert Gap(a, b, x1, y1, s, x1) == -(y1 * y1 - Cubic(a, b, x1));
    DividesSum(p, y1 * y1 - Cubic(a, b, x1), 0) by { DividesZero(p); }
    DividesSum(p, d * (e - x1), Gap(a, b, x1, y1, s, x1));
    assert s * s - x1 - x1 == e;
    Reflect(p, a, b, x1, y1, s, e, x3, y3);
  }
}
