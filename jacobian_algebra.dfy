/** The congruences behind the Jacobian formulas of
    libtls13/script/generate-ec-test-data.py (lines 325-367), on plain
    integers modulo p. A Jacobian point (X, Y, Z) with X = x Z^2 and
    Y = y Z^3 stands for the affine point (x, y); each lemma follows one
    stretch of "add-2007-bl" or "dbl-2001-b" and says what its outputs are
    in affine terms. A hypothesis Divides(p, e - v) reads "the script's
    value v is e modulo p". */
module JacobianAlgebra {
  import opened Modular

  // ---------------------------------------------------------------------
  // From Jacobian to affine coordinates.

  /** x Z^2 = X with Z^2 computed as zz. */
  lemma SquareScaled(p: int, x: int, X: int, zz: int, z: int)
    requires p > 0 && Divides(p, x * zz - X) && Divides(p, z * z - zz)
    ensures Divides(p, x * (z * z) - X)
  {
    CongSym(p, z * z, zz);
    CongMul(p, x, x, z * z, zz);
    CongTrans(p, x * (z * z), x * zz, X);
  }

  /** y Z^3 = Y with Z^3 computed as zzz. */
  lemma CubeScaled(p: int, y: int, Y: int, zzz: int, z: int)
    requires p > 0 && Divides(p, y * zzz - Y) && Divides(p, z * z * z - zzz)
    ensures Divides(p, y * (z * z * z) - Y)
  {
    CongSym(p, y, y);
    CongMul(p, y, y, z * z * z, zzz);
    CongTrans(p, y * (z * z * z), y * zzz, Y);
  }

  /** u = X1 Z2^2 is x1 (Z1 Z2)^2. */
  lemma ScaledU(p: int, x: int, X: int, z: int, zo: int, zzo: int, u: int)
    requires p > 0 && Divides(p, x * (z * z) - X) && Divides(p, zo * zo - zzo)
    requires Divides(p, X * zzo - u)
    ensures Divides(p, x * ((z * zo) * (z * zo)) - u)
  {
    CongMul(p, x * (z * z), X, zo * zo, zzo);
    CongTrans(p, x * (z * z) * (zo * zo), X * zzo, u);
    Rearrange4(x, z, zo);
  }

  /** s = Y1 Z2 Z2^2 is y1 (Z1 Z2)^3. */
  lemma ScaledS(p: int, y: int, Y: int, z: int, zo: int, zzo: int, t: int, s: int)
    requires p > 0 && Divides(p, y * (z * z * z) - Y) && Divides(p, zo * zo - zzo)
    requires Divides(p, Y * zo - t) && Divides(p, t * zzo - s)
    ensures Divides(p, y * ((z * zo) * (z * zo) * (z * zo)) - s)
  {
    CongSym(p, zo, zo);
    CongMul(p, y * (z * z * z), Y, zo, zo);
    CongTrans(p, y * (z * z * z) * zo, Y * zo, t);
    CongMul(p, y * (z * z * z) * zo, t, zo * zo, zzo);
    CongTrans(p, y * (z * z * z) * zo * (zo * zo), t * zzo, s);
    Rearrange6(y, z, zo);
  }

  // ---------------------------------------------------------------------
  // Addition of two distinct points, W = Z1 Z2, D = x2 - x1.

  /** h = u2 - u1 is D W^2. */
  lemma ChordH(p: int, x1: int, x2: int, W2: int, u1: int, u2: int, h: int)
    requires p > 0 && Divides(p, x1 * W2 - u1) && Divides(p, x2 * W2 - u2) && Divides(p, u2 - u1 - h)
    ensures Divides(p, (x2 - x1) * W2 - h)
  {
    CongAdd(p, x2 * W2, u2, x1 * W2, u1);
    CongTrans(p, x2 * W2 - x1 * W2, u2 - u1, h);
    assert (x2 - x1) * W2 == x2 * W2 - x1 * W2;
  }

  /** i = (2h)^2 is 4 D^2 W^4. */
  lemma ChordI(p: int, D: int, W2: int, h: int, c2: int, h2: int, i: int)
    requires p > 0 && Divides(p, D * W2 - h) && Divides(p, 2 - c2)
    requires Divides(p, h * c2 - h2) && Divides(p, h2 * h2 - i)
    ensures Divides(p, 4 * (D * D) * (W2 * W2) - i)
  {
    CongMul(p, D * W2, h, 2, c2);
    CongTrans(p, D * W2 * 2, h * c2, h2);
    CongMul(p, D * W2 * 2, h2, D * W2 * 2, h2);
    CongTrans(p, (D * W2 * 2) * (D * W2 * 2), h2 * h2, i);
    DoubledSquare(D, W2);
  }

  lemma DoubledSquare(D: int, W2: int)
    ensures (D * W2 * 2) * (D * W2 * 2) == 4 * (D * D) * (W2 * W2)
  {
    SquareOfProduct(D * W2, 2);
    SquareOfProduct(D, W2);
  }

  /** j = h i is 4 D^3 W^6 and v = u1 i is 4 x1 D^2 W^6. */
  lemma ChordJV(p: int, D: int, W2: int, x1: int, h: int, i: int, u1: int, j: int, v: int)
    requires p > 0 && Divides(p, D * W2 - h) && Divides(p, 4 * (D * D) * (W2 * W2) - i)
    requires Divides(p, x1 * W2 - u1) && Divides(p, h * i - j) && Divides(p, u1 * i - v)
    ensures Divides(p, 4 * (D * D * D) * (W2 * W2 * W2) - j)
    ensures Divides(p, 4 * x1 * (D * D) * (W2 * W2 * W2) - v)
  {
    CongMul(p, D * W2, h, 4 * (D * D) * (W2 * W2), i);
    CongTrans(p, (D * W2) * (4 * (D * D) * (W2 * W2)), h * i, j);
    ScaleCubes(D, W2, D);
    CongMul(p, x1 * W2, u1, 4 * (D * D) * (W2 * W2), i);
    CongTrans(p, (x1 * W2) * (4 * (D * D) * (W2 * W2)), u1 * i, v);
    ScaleCubes(D, W2, x1);
  }

  /** r = 2 (s2 - s1) is the slope times 2 D W^3. */
  lemma ChordR(p: int, s: int, x1: int, x2: int, y1: int, y2: int, W3: int,
               s1: int, s2: int, ds: int, c2: int, r: int)
    requires p > 0 && Divides(p, y1 * W3 - s1) && Divides(p, y2 * W3 - s2) && Divides(p, s2 - s1 - ds)
    requires Divides(p, s * (x1 - x2) - (y1 - y2)) && Divides(p, 2 - c2) && Divides(p, ds * c2 - r)
    ensures Divides(p, s * (2 * (x2 - x1) * W3) - r)
  {
    CongAdd(p, y2 * W3, s2, y1 * W3, s1);
    CongTrans(p, y2 * W3 - y1 * W3, s2 - s1, ds);
    CongSym(p, s * (x1 - x2), y1 - y2);
    assert (y1 - y2) - s * (x1 - x2) == s * (x2 - x1) - (y2 - y1);
    CongSym(p, W3, W3);
    CongMul(p, s * (x2 - x1), y2 - y1, W3, W3);
    assert (y2 - y1) * W3 == y2 * W3 - y1 * W3;
    CongTrans(p, s * (x2 - x1) * W3, y2 * W3 - y1 * W3, ds);
    CongMul(p, s * (x2 - x1) * W3, ds, 2, c2);
    CongTrans(p, s * (x2 - x1) * W3 * 2, ds * c2, r);
    assert s * (2 * (x2 - x1) * W3) == s * (x2 - x1) * W3 * 2;
  }

  /** Z3 = ((Z1 + Z2)^2 - Z1^2 - Z2^2) h is 2 D W^3. */
  lemma ChordZ(p: int, z1: int, z2: int, W: int, w2: int, h: int, Z3: int, D: int, Zs: int)
    requires p > 0 && W == z1 * z2 && Zs == 2 * D * (W * W * W)
    requires Divides(p, w2 - 2 * z1 * z2) && Divides(p, w2 * h - Z3)
    requires Divides(p, D * (W * W) - h)
    ensures Divides(p, Zs - Z3)
  {
    CongSym(p, D * (W * W), h);
    CongMul(p, w2, 2 * z1 * z2, h, D * (W * W));
    CongSym(p, w2 * h, 2 * z1 * z2 * (D * (W * W)));
    CongTrans(p, 2 * z1 * z2 * (D * (W * W)), w2 * h, Z3);
    ChordZIdentity(z1, z2, W, D, Zs);
  }

  /** X3 = r^2 - j - 2v is x3 Z^2, where Z = 2 D W^3 and Z^2 = 4 D^2 K. */
  lemma ChordX3(p: int, s: int, x1: int, x2: int, x3: int, D: int, K: int, Zs: int,
                r: int, r2: int, j: int, m1: int, v: int, c2: int, v2: int, X3: int)
    requires p > 0 && D == x2 - x1 && Zs * Zs == 4 * (D * D) * K
    requires Divides(p, s * Zs - r) && Divides(p, r * r - r2) && Divides(p, 4 * (D * D * D) * K - j)
    requires Divides(p, r2 - j - m1) && Divides(p, 4 * x1 * (D * D) * K - v) && Divides(p, 2 - c2)
    requires Divides(p, v * c2 - v2) && Divides(p, m1 - v2 - X3)
    requires Divides(p, x3 - (s * s - x1 - x2))
    ensures Divides(p, x3 * (Zs * Zs) - X3)
  {
    var a, b, c := (s * Zs) * (s * Zs), 4 * (D * D * D) * K, 4 * x1 * (D * D) * K * 2;
    CongMul(p, s * Zs, r, s * Zs, r);
    CongTrans(p, a, r * r, r2);
    CongAdd(p, a, r2, b, j);
    CongTrans(p, a - b, r2 - j, m1);
    CongMul(p, 4 * x1 * (D * D) * K, v, 2, c2);
    CongTrans(p, c, v * c2, v2);
    CongAdd(p, a - b, m1, c, v2);
    CongTrans(p, a - b - c, m1 - v2, X3);
    SquareOfProduct(s, Zs);
    ChordX3Identity(s, x1, x2, D, K, Zs * Zs);
    CongSym(p, Zs * Zs, Zs * Zs);
    CongMul(p, x3, s * s - x1 - x2, Zs * Zs, Zs * Zs);
    CongTrans(p, x3 * (Zs * Zs), (s * s - x1 - x2) * (Zs * Zs), X3);
  }

  /** Y3 = r (v - X3) - 2 s1 j is y3 Z^3. */
  lemma ChordY3(p: int, s: int, x1: int, x3: int, y1: int, y3: int, D: int, K: int, W3: int,
                Zs: int, v: int, X3: int, d: int, r: int, rd: int, s1: int, c2: int,
                s12: int, j: int, sj: int, Y3: int)
    requires p > 0 && Zs == 2 * D * W3 && Zs * Zs == 4 * (D * D) * K
    requires Divides(p, 4 * x1 * (D * D) * K - v) && Divides(p, x3 * (Zs * Zs) - X3)
    requires Divides(p, v - X3 - d) && Divides(p, s * Zs - r) && Divides(p, r * d - rd)
    requires Divides(p, y1 * W3 - s1) && Divides(p, 2 - c2) && Divides(p, s1 * c2 - s12)
    requires Divides(p, 4 * (D * D * D) * K - j) && Divides(p, s12 * j - sj) && Divides(p, rd - sj - Y3)
    requires Divides(p, y3 - (-y1 + s * (x1 - x3)))
    ensures Divides(p, y3 * (Zs * Zs * Zs) - Y3)
  {
    var e := 4 * x1 * (D * D) * K - x3 * (Zs * Zs);
    CongAdd(p, 4 * x1 * (D * D) * K, v, x3 * (Zs * Zs), X3);
    CongTrans(p, e, v - X3, d);
    FactorQ(x1, x3, 4 * x1 * (D * D) * K, Zs * Zs);
    CongMul(p, s * Zs, r, e, d);
    CongTrans(p, (s * Zs) * e, r * d, rd);
    CongMul(p, y1 * W3, s1, 2, c2);
    CongTrans(p, y1 * W3 * 2, s1 * c2, s12);
    var b := 4 * (D * D * D) * K;
    CongMul(p, y1 * W3 * 2, s12, b, j);
    CongTrans(p, y1 * W3 * 2 * b, s12 * j, sj);
    CongAdd(p, (s * Zs) * e, rd, y1 * W3 * 2 * b, sj);
    CongTrans(p, (s * Zs) * e - y1 * W3 * 2 * b, rd - sj, Y3);
    ChordY3Identity(y1, D, K, W3, Zs, Zs * Zs);
    CubeSplit(s, Zs, x1 - x3, y1, Zs * Zs, y1 * W3 * 2 * b);
    CongSym(p, Zs * Zs * Zs, Zs * Zs * Zs);
    CongMul(p, y3, -y1 + s * (x1 - x3), Zs * Zs * Zs, Zs * Zs * Zs);
    CongTrans(p, y3 * (Zs * Zs * Zs), (-y1 + s * (x1 - x3)) * (Zs * Zs * Zs), Y3);
  }

  // ---------------------------------------------------------------------
  // Doubling, for a = -3.

  /** alpha = 3 (X - Z^2)(X + Z^2) is the tangent slope times 2 y Z^4. */
  lemma DoubleAlpha(p: int, x: int, X: int, z: int, delta: int, m: int, c3: int, mc: int,
                    pl: int, alpha: int, s: int, y: int, a: int)
    requires p > 0 && Divides(p, x * (z * z) - X) && Divides(p, z * z - delta)
    requires Divides(p, X - delta - m) && Divides(p, 3 - c3) && Divides(p, m * c3 - mc)
    requires Divides(p, X + delta - pl) && Divides(p, mc * pl - alpha)
    requires Divides(p, s * (2 * y) - (3 * x * x + a)) && Divides(p, a + 3)
    ensures Divides(p, s * (2 * y * (z * z * z * z)) - alpha)
  {
    var zz := z * z;
    CongAdd(p, x * zz, X, zz, delta);
    CongTrans(p, x * zz - zz, X - delta, m);
    CongTrans(p, x * zz + zz, X + delta, pl);
    CongMul(p, x * zz - zz, m, 3, c3);
    CongTrans(p, (x * zz - zz) * 3, m * c3, mc);
    CongMul(p, (x * zz - zz) * 3, mc, x * zz + zz, pl);
    CongTrans(p, (x * zz - zz) * 3 * (x * zz + zz), mc * pl, alpha);
    DifferenceOfSquares(x, zz);
    assert (3 * x * x + a) - (3 * x * x - 3) == a + 3;
    CongTrans(p, s * (2 * y), 3 * x * x + a, 3 * x * x - 3);
    CongSym(p, zz * zz, zz * zz);
    CongMul(p, s * (2 * y), 3 * x * x - 3, zz * zz, zz * zz);
    CongTrans(p, s * (2 * y) * (zz * zz), (3 * x * x - 3) * (zz * zz), alpha);
    FourthPower(s, 2 * y, z);
  }

  /** gamma = Y^2 is y^2 Z^6 and beta = X gamma is x y^2 Z^8. */
  lemma DoubleBeta(p: int, x: int, X: int, y: int, Y: int, z: int, gamma: int, beta: int)
    requires p > 0 && Divides(p, x * (z * z) - X) && Divides(p, y * (z * z * z) - Y)
    requires Divides(p, Y * Y - gamma) && Divides(p, X * gamma - beta)
    ensures Divides(p, (y * y) * (z * z * z * z * z * z) - gamma)
    ensures Divides(p, x * (y * y) * (z * z * z * z * z * z * z * z) - beta)
  {
    var Yc := y * (z * z * z);
    CongMul(p, Yc, Y, Yc, Y);
    CongTrans(p, Yc * Yc, Y * Y, gamma);
    SquareOfProduct(y, z * z * z);
    Powers(z);
    CongMul(p, x * (z * z), X, Yc * Yc, gamma);
    CongTrans(p, x * (z * z) * (Yc * Yc), X * gamma, beta);
    DoubleBetaIdentity(x, y, z);
  }

  /** Z3 = 2 Y Z is 2 y Z^4. */
  lemma DoubleZ3(p: int, y: int, Y: int, z: int, Z3: int)
    requires p > 0 && Divides(p, y * (z * z * z) - Y) && Divides(p, Z3 - 2 * Y * z)
    ensures Divides(p, 2 * y * (z * z * z * z) - Z3)
  {
    CongSym(p, 2 * z, 2 * z);
    CongMul(p, y * (z * z * z), Y, 2 * z, 2 * z);
    CongSym(p, Z3, 2 * Y * z);
    assert Y * (2 * z) == 2 * Y * z;
    CongTrans(p, y * (z * z * z) * (2 * z), 2 * Y * z, Z3);
    DoubleZIdentity(y, z);
  }

  /** X3 = alpha^2 - 8 beta is x3 Z^2, where Z = 2 y z^4. */
  lemma DoubleX3(p: int, s: int, x: int, x3: int, y: int, z: int, Zs: int, alpha: int,
                 alpha2: int, beta: int, c8: int, b8: int, X3: int)
    requires p > 0 && Zs == 2 * y * (z * z * z * z)
    requires Divides(p, s * Zs - alpha) && Divides(p, alpha * alpha - alpha2)
    requires Divides(p, x * (y * y) * (z * z * z * z * z * z * z * z) - beta)
    requires Divides(p, 8 - c8) && Divides(p, beta * c8 - b8) && Divides(p, alpha2 - b8 - X3)
    requires Divides(p, x3 - (s * s - x - x))
    ensures Divides(p, x3 * (Zs * Zs) - X3)
  {
    var b := x * (y * y) * (z * z * z * z * z * z * z * z);
    CongMul(p, s * Zs, alpha, s * Zs, alpha);
    CongTrans(p, (s * Zs) * (s * Zs), alpha * alpha, alpha2);
    CongMul(p, b, beta, 8, c8);
    CongTrans(p, b * 8, beta * c8, b8);
    CongAdd(p, (s * Zs) * (s * Zs), alpha2, b * 8, b8);
    CongTrans(p, (s * Zs) * (s * Zs) - b * 8, alpha2 - b8, X3);
    DoubleSquare(x, y, z, Zs);
    SquareOfProduct(s, Zs);
    Distribute(s * s, x, Zs * Zs);
    CongSym(p, Zs * Zs, Zs * Zs);
    CongMul(p, x3, s * s - x - x, Zs * Zs, Zs * Zs);
    CongTrans(p, x3 * (Zs * Zs), (s * s - x - x) * (Zs * Zs), X3);
  }

  /** Y3 = alpha (4 beta - X3) - 8 gamma^2 is y3 Z^3. */
  lemma DoubleY3(p: int, s: int, x: int, x3: int, y: int, y3: int, z: int, Zs: int,
                 alpha: int, beta: int, c4: int, b4: int, X3: int, e: int, ae: int,
                 gamma: int, g2: int, c8: int, g8: int, Y3: int)
    requires p > 0 && Zs == 2 * y * (z * z * z * z)
    requires Divides(p, x * (y * y) * (z * z * z * z * z * z * z * z) - beta)
    requires Divides(p, 4 - c4) && Divides(p, beta * c4 - b4) && Divides(p, x3 * (Zs * Zs) - X3)
    requires Divides(p, b4 - X3 - e) && Divides(p, s * Zs - alpha) && Divides(p, alpha * e - ae)
    requires Divides(p, (y * y) * (z * z * z * z * z * z) - gamma) && Divides(p, gamma * gamma - g2)
    requires Divides(p, 8 - c8) && Divides(p, g2 * c8 - g8) && Divides(p, ae - g8 - Y3)
    requires Divides(p, y3 - (-y + s * (x - x3)))
    ensures Divides(p, y3 * (Zs * Zs * Zs) - Y3)
  {
    var b := x * (y * y) * (z * z * z * z * z * z * z * z);
    var g := (y * y) * (z * z * z * z * z * z);
    CongMul(p, b, beta, 4, c4);
    CongTrans(p, b * 4, beta * c4, b4);
    CongAdd(p, b * 4, b4, x3 * (Zs * Zs), X3);
    CongTrans(p, b * 4 - x3 * (Zs * Zs), b4 - X3, e);
    DoubleSquare(x, y, z, Zs);
    var f := b * 4 - x3 * (Zs * Zs);
    FactorQ(x, x3, b * 4, Zs * Zs);
    CongMul(p, s * Zs, alpha, f, e);
    CongTrans(p, (s * Zs) * f, alpha * e, ae);
    CongMul(p, g, gamma, g, gamma);
    CongTrans(p, g * g, gamma * gamma, g2);
    CongMul(p, g * g, g2, 8, c8);
    CongTrans(p, g * g * 8, g2 * c8, g8);
    CongAdd(p, (s * Zs) * f, ae, g * g * 8, g8);
    CongTrans(p, (s * Zs) * f - g * g * 8, ae - g8, Y3);
    DoubleCube(y, z, Zs);
    CubeSplit(s, Zs, x - x3, y, Zs * Zs, g * g * 8);
    CongSym(p, Zs * Zs * Zs, Zs * Zs * Zs);
    CongMul(p, y3, -y + s * (x - x3), Zs * Zs * Zs, Zs * Zs * Zs);
    CongTrans(p, y3 * (Zs * Zs * Zs), (-y + s * (x - x3)) * (Zs * Zs * Zs), Y3);
  }

  // ---------------------------------------------------------------------
  // Back to affine coordinates.

  /** If o Z3^2 = X3 = x3 Zs^2 with Z3 = Zs invertible, then o = x3. */
  lemma CancelSquare(p: int, o: int, x3: int, X3: int, zz: int, Z3: int, Zs: int)
    requires IsPrime(p) && Divides(p, o * zz - X3) && Divides(p, Z3 * Z3 - zz)
    requires Divides(p, Zs - Z3) && Divides(p, x3 * (Zs * Zs) - X3) && !Divides(p, Zs)
    ensures Divides(p, o - x3)
  {
    CongMul(p, Zs, Z3, Zs, Z3);
    CongTrans(p, Zs * Zs, Z3 * Z3, zz);
    CongSym(p, o, o);
    CongMul(p, o, o, Zs * Zs, zz);
    CongTrans(p, o * (Zs * Zs), o * zz, X3);
    CongSym(p, x3 * (Zs * Zs), X3);
    CongTrans(p, o * (Zs * Zs), X3, x3 * (Zs * Zs));
    assert o * (Zs * Zs) - x3 * (Zs * Zs) == (o - x3) * Zs * Zs;
    PrimeFactor(p, (o - x3) * Zs, Zs);
    PrimeFactor(p, o - x3, Zs);
  }

  /** If o Z3^3 = Y3 = y3 Zs^3 with Z3 = Zs invertible, then o = y3. */
  lemma CancelCube(p: int, o: int, y3: int, Y3: int, zzz: int, Z3: int, Zs: int)
    requires IsPrime(p) && Divides(p, o * zzz - Y3) && Divides(p, Z3 * Z3 * Z3 - zzz)
    requires Divides(p, Zs - Z3) && Divides(p, y3 * (Zs * Zs * Zs) - Y3) && !Divides(p, Zs)
    ensures Divides(p, o - y3)
  {
    CongMul(p, Zs, Z3, Zs, Z3);
    CongMul(p, Zs * Zs, Z3 * Z3, Zs, Z3);
    CongTrans(p, Zs * Zs * Zs, Z3 * Z3 * Z3, zzz);
    CongSym(p, o, o);
    CongMul(p, o, o, Zs * Zs * Zs, zzz);
    CongTrans(p, o * (Zs * Zs * Zs), o * zzz, Y3);
    CongSym(p, y3 * (Zs * Zs * Zs), Y3);
    CongTrans(p, o * (Zs * Zs * Zs), Y3, y3 * (Zs * Zs * Zs));
    assert o * (Zs * Zs * Zs) - y3 * (Zs * Zs * Zs) == (o - y3) * Zs * Zs * Zs;
    PrimeFactor(p, (o - y3) * Zs * Zs, Zs);
    PrimeFactor(p, (o - y3) * Zs, Zs);
    PrimeFactor(p, o - y3, Zs);
  }

  /** A product of non-zero residues modulo a prime is not 0. */
  lemma ProductNonZero(p: int, u: int, v: int)
    requires IsPrime(p) && !Divides(p, u) && !Divides(p, v)
    ensures !Divides(p, u * v)
  {
    if Divides(p, u * v) {
      PrimeFactor(p, u, v);
    }
  }

  /** a k = b k with k invertible gives a = b. */
  lemma CancelBy(p: int, a: int, b: int, k: int, u1: int, u2: int)
    requires IsPrime(p) && Divides(p, a * k - u1) && Divides(p, b * k - u2)
    requires Divides(p, u1 - u2) && !Divides(p, k)
    ensures Divides(p, a - b)
  {
    CongTrans(p, a * k, u1, u2);
    CongSym(p, b * k, u2);
    CongTrans(p, a * k, u2, b * k);
    assert a * k - b * k == (a - b) * k;
    PrimeFactor(p, a - b, k);
  }

  /** 2 u v is not 0 modulo an odd prime when neither u nor v is. */
  lemma TwiceProductNonZero(p: int, u: int, v: int)
    requires IsPrime(p) && p % 2 == 1 && !Divides(p, u) && !Divides(p, v)
    ensures !Divides(p, 2 * u * v)
  {
    if Divides(p, 2 * u * v) {
      PrimeFactor(p, 2 * u, v);
      PrimeFactor(p, 2, u);
      DivisorAtMost(p, 2);
      assert false;
    }
  }

  // ---------------------------------------------------------------------
  // Ring identities, kept apart from the congruences.

  lemma Rearrange4(x: int, z: int, zo: int)
    ensures x * ((z * zo) * (z * zo)) == x * (z * z) * (zo * zo)
  {
  }

  lemma Rearrange6(y: int, z: int, zo: int)
    ensures y * ((z * zo) * (z * zo) * (z * zo)) == y * (z * z * z) * zo * (zo * zo)
  {
  }

  lemma SquareOfProduct(a: int, b: int)
    ensures (a * b) * (a * b) == (a * a) * (b * b)
  {
  }

  lemma Powers(z: int)
    ensures (z * z * z) * (z * z * z) == z * z * z * z * z * z
  {
  }

  lemma ScaleCubes(D: int, W2: int, x: int)
    ensures (x * W2) * (4 * (D * D) * (W2 * W2)) == 4 * x * (D * D) * (W2 * W2 * W2)
    ensures 4 * D * (D * D) * (W2 * W2 * W2) == 4 * (D * D * D) * (W2 * W2 * W2)
  {
  }

  lemma ChordZIdentity(z1: int, z2: int, W: int, D: int, Zs: int)
    requires W == z1 * z2 && Zs == 2 * D * (W * W * W)
    ensures 2 * z1 * z2 * (D * (W * W)) == Zs
  {
  }

  lemma FactorQ(a: int, c: int, b: int, q: int)
    requires b == a * q
    ensures b - c * q == (a - c) * q
  {
  }

  lemma Distribute(a: int, x: int, q: int)
    ensures a * q - 2 * x * q == (a - x - x) * q
  {
  }

  lemma ChordX3Identity(s: int, x1: int, x2: int, D: int, K: int, q: int)
    requires D == x2 - x1 && q == 4 * (D * D) * K
    ensures (s * s) * q - 4 * (D * D * D) * K - 4 * x1 * (D * D) * K * 2 == (s * s - x1 - x2) * q
    ensures 4 * x1 * (D * D) * K == x1 * q
  {
  }

  lemma ChordY3Identity(y1: int, D: int, K: int, W3: int, Zs: int, q: int)
    requires Zs == 2 * D * W3 && q == 4 * (D * D) * K
    ensures y1 * W3 * 2 * (4 * (D * D * D) * K) == y1 * (Zs * q)
  {
  }

  lemma CubeSplit(s: int, Zs: int, d: int, y: int, q: int, t: int)
    requires q == Zs * Zs && t == y * (Zs * q)
    ensures (s * Zs) * (d * q) - t == (-y + s * d) * (Zs * Zs * Zs)
  {
  }

  lemma DifferenceOfSquares(x: int, zz: int)
    ensures (x * zz - zz) * 3 * (x * zz + zz) == (3 * x * x - 3) * (zz * zz)
  {
  }

  lemma FourthPower(s: int, t: int, z: int)
    ensures s * (t * (z * z * z * z)) == s * t * ((z * z) * (z * z))
  {
  }

  lemma DoubleBetaIdentity(x: int, y: int, z: int)
    ensures x * (z * z) * ((y * y) * (z * z * z * z * z * z)) == x * (y * y) * (z * z * z * z * z * z * z * z)
  {
  }

  lemma DoubleZIdentity(y: int, z: int)
    ensures 2 * y * (z * z * z * z) == y * (z * z * z) * (2 * z)
  {
  }

  lemma DoubleSquare(x: int, y: int, z: int, Zs: int)
    requires Zs == 2 * y * (z * z * z * z)
    ensures x * (y * y) * (z * z * z * z * z * z * z * z) * 8 == 2 * x * (Zs * Zs)
    ensures x * (y * y) * (z * z * z * z * z * z * z * z) * 4 == x * (Zs * Zs)
  {
    var z4 := z * z * z * z;
    assert z4 * z4 == z * z * z * z * z * z * z * z;
    SquareOfProduct(2 * y, z4);
    assert Zs * Zs == 4 * (y * y) * (z4 * z4);
  }

  lemma DoubleCube(y: int, z: int, Zs: int)
    requires Zs == 2 * y * (z * z * z * z)
    ensures (y * y) * (z * z * z * z * z * z) * ((y * y) * (z * z * z * z * z * z)) * 8 == y * (Zs * (Zs * Zs))
  {
  }
}
