/** The integer facts behind the prime-field arithmetic of
    libtls13/script/generate-ec-test-data.py: Python's `%` for a positive
    modulus, `pow(x, y, p)`, the inverse `pow(x, -1, p)` and the facts about
    primes that the square root and the group law rely on. */
module Modular {
  import opened Results
  import Numerals

  predicate Divides(d: int, n: int)
  {
    d != 0 && n % d == 0
  }

  /** Primality, for the lemmas only: the scripts never test it. */
  ghost predicate IsPrime(p: int)
  {
    p >= 2 && forall d :: 1 < d < p ==> !Divides(d, p)
  }

  // ---------------------------------------------------------------------
  // Division with remainder.

  lemma MulAtLeast(k: int, p: int)
    requires k >= 1 && p > 0
    ensures k * p >= p
  {
    assert k * p == (k - 1) * p + p;
  }

  /** A quotient and remainder in range are the ones `/` and `%` give. */
  lemma ModUnique(a: int, p: int, q: int, r: int)
    requires p > 0 && a == q * p + r && 0 <= r < p
    ensures a % p == r && a / p == q
  {
    var q', r' := a / p, a % p;
    assert (q - q') * p == r' - r;
    if q > q' {
      MulAtLeast(q - q', p);
    } else if q < q' {
      MulAtLeast(q' - q, p);
    }
  }

  lemma ModOfMultiple(k: int, a: int, p: int)
    requires p > 0
    ensures (k * p + a) % p == a % p
  {
    ModUnique(k * p + a, p, k + a / p, a % p);
  }

  lemma ModAdd(a: int, b: int, p: int)
    requires p > 0
    ensures (a + b) % p == (a % p + b % p) % p
  {
    var s := a % p + b % p;
    assert a + b == (a / p + b / p) * p + s;
    ModOfMultiple(a / p + b / p, s, p);
  }

  lemma ModSub(a: int, b: int, p: int)
    requires p > 0
    ensures (a - b) % p == (a % p - b % p) % p
  {
    var s := a % p - b % p;
    assert a - b == (a / p - b / p) * p + s;
    ModOfMultiple(a / p - b / p, s, p);
  }

  lemma ModMul(a: int, b: int, p: int)
    requires p > 0
    ensures (a * b) % p == ((a % p) * (b % p)) % p
  {
    var qa, ra := a / p, a % p;
    var qb, rb := b / p, b % p;
    calc {
      a * b;
      (qa * p + ra) * (qb * p + rb);
      (qa * qb * p + qa * rb + ra * qb) * p + ra * rb;
    }
    ModOfMultiple(qa * qb * p + qa * rb + ra * qb, ra * rb, p);
  }

  lemma ModMod(a: int, p: int)
    requires p > 0
    ensures (a % p) % p == a % p
  {
    ModUnique(a % p, p, 0, a % p);
  }

  /** The two factors may each be replaced by anything congruent. */
  lemma MulCongruent(a: int, a': int, b: int, b': int, p: int)
    requires p > 0 && a % p == a' % p && b % p == b' % p
    ensures (a * b) % p == (a' * b') % p
  {
    ModMul(a, b, p);
    ModMul(a', b', p);
  }

  lemma AddCongruent(a: int, a': int, b: int, b': int, p: int)
    requires p > 0 && a % p == a' % p && b % p == b' % p
    ensures (a + b) % p == (a' + b') % p
  {
    ModAdd(a, b, p);
    ModAdd(a', b', p);
  }

  lemma SubCongruent(a: int, a': int, b: int, b': int, p: int)
    requires p > 0 && a % p == a' % p && b % p == b' % p
    ensures (a - b) % p == (a' - b') % p
  {
    ModSub(a, b, p);
    ModSub(a', b', p);
  }

  /** Congruence is divisibility of the difference. */
  lemma CongruentIffDivides(a: int, b: int, p: int)
    requires p > 0
    ensures a % p == b % p <==> Divides(p, a - b)
  {
    ModSub(a, b, p);
    var ra, rb := a % p, b % p;
    var d := ra - rb;
    if d == 0 {
      ModUnique(d, p, 0, 0);
    } else if d > 0 {
      ModUnique(d, p, 0, d);
    } else {
      ModUnique(d, p, -1, d + p);
    }
  }

  /** x % p is the one number in [0, p) that differs from x by a multiple
      of p. */
  lemma Representative(x: int, p: int, r: int)
    requires p > 0
    ensures Divides(p, x - x % p)
    ensures 0 <= r < p && Divides(p, x - r) ==> r == x % p
  {
    DivMod(x, p);
    ModUnique(x - x % p, p, x / p, 0);
    if 0 <= r < p && Divides(p, x - r) {
      DivMod(x - r, p);
      ModUnique(x, p, (x - r) / p, r);
    }
  }

  lemma DivMod(a: int, p: int)
    requires p > 0
    ensures a == (a / p) * p + a % p
  {
  }

  /** Two numbers in [0, p) that are congruent are equal. */
  lemma SameResidue(p: int, u: int, v: int)
    requires p > 0 && 0 <= u < p && 0 <= v < p && Divides(p, u - v)
    ensures u == v
  {
    Representative(u, p, v);
    ModUnique(u, p, 0, u);
  }

  // ---------------------------------------------------------------------
  // Powers.

  lemma {:induction false} PowPositive(b: int, e: nat)
    requires b > 0
    ensures Numerals.Pow(b, e) > 0
    decreases e
  {
    if e > 0 {
      PowPositive(b, e - 1);
      assert Numerals.Pow(b, e) == b * Numerals.Pow(b, e - 1);
    }
  }

  lemma {:induction false} PowAdd(b: int, e1: nat, e2: nat)
    ensures Numerals.Pow(b, e1 + e2) == Numerals.Pow(b, e1) * Numerals.Pow(b, e2)
    decreases e1
  {
    if e1 > 0 {
      PowAdd(b, e1 - 1, e2);
      assert Numerals.Pow(b, e1 + e2) == b * Numerals.Pow(b, e1 - 1 + e2);
    }
  }

  lemma {:induction false} PowMul(b: int, e1: nat, e2: nat)
    ensures Numerals.Pow(b, e1 * e2) == Numerals.Pow(Numerals.Pow(b, e1), e2)
    decreases e2
  {
    if e2 > 0 {
      PowMul(b, e1, e2 - 1);
      assert e1 * e2 == e1 + e1 * (e2 - 1);
      PowAdd(b, e1, e1 * (e2 - 1));
    }
  }

  /** `pow(x, y, p)`: the power reduced mod p. */
  function PowMod(x: int, y: nat, p: int): (r: int)
    requires p > 0
    ensures 0 <= r < p
  {
    Numerals.Pow(x, y) % p
  }

  /** Reducing the base first does not change the power mod p. */
  lemma {:induction false} PowModBase(x: int, y: nat, p: int)
    requires p > 0
    ensures PowMod(x % p, y, p) == PowMod(x, y, p)
    decreases y
  {
    if y > 0 {
      PowModBase(x, y - 1, p);
      ModMod(x, p);
      MulCongruent(x % p, x, Numerals.Pow(x % p, y - 1), Numerals.Pow(x, y - 1), p);
    }
  }

  /** Powers of powers, mod p. */
  lemma PowModPow(x: int, e1: nat, e2: nat, p: int)
    requires p > 0
    ensures PowMod(PowMod(x, e1, p), e2, p) == PowMod(x, e1 * e2, p)
  {
    PowModBase(Numerals.Pow(x, e1), e2, p);
    PowMul(x, e1, e2);
  }

  lemma PowModAdd(x: int, e1: nat, e2: nat, p: int)
    requires p > 0
    ensures PowMod(x, e1 + e2, p) == (PowMod(x, e1, p) * PowMod(x, e2, p)) % p
  {
    PowAdd(x, e1, e2);
    ModMul(Numerals.Pow(x, e1), Numerals.Pow(x, e2), p);
  }

  // ---------------------------------------------------------------------
  // Greatest common divisors and inverses.

  lemma DividesCombination(g: int, a: int, b: int, m: int, n: int)
    requires g > 0 && Divides(g, a) && Divides(g, b)
    ensures Divides(g, a * m + b * n)
  {
    assert a == (a / g) * g;
    assert b == (b / g) * g;
    assert a * m + b * n == ((a / g) * m + (b / g) * n) * g;
    ModOfMultiple((a / g) * m + (b / g) * n, 0, g);
  }

  lemma DividesZero(p: int)
    requires p > 0
    ensures Divides(p, 0)
  {
    ModUnique(0, p, 0, 0);
  }

  lemma DividesSum(p: int, u: int, v: int)
    requires p > 0 && Divides(p, u) && Divides(p, v)
    ensures Divides(p, u + v) && Divides(p, u - v) && Divides(p, -u)
  {
    DividesCombination(p, u, v, 1, 1);
    DividesCombination(p, u, v, 1, -1);
    DividesCombination(p, u, v, -1, 0);
  }

  lemma DividesScaled(p: int, u: int, k: int)
    requires p > 0 && Divides(p, u)
    ensures Divides(p, u * k) && Divides(p, k * u)
  {
    DividesCombination(p, u, u, k, 0);
  }

  lemma DivisorAtMost(d: int, n: int)
    requires d > 0 && n > 0 && Divides(d, n)
    ensures d <= n
  {
    var k := n / d;
    assert n == k * d;
    MulAtLeast(k, d);
  }

  /** Euclid's algorithm, with Bezout coefficients: g = a*s + b*t, and g
      divides both a and b (and is positive unless both are 0). */
  function Egcd(a: nat, b: nat): (r: (nat, int, int))
    ensures r.0 == a * r.1 + b * r.2
    ensures a > 0 || b > 0 ==> r.0 > 0 && Divides(r.0, a) && Divides(r.0, b)
    decreases b
  {
    if b == 0 then
      assert a > 0 ==> Divides(a, a) by {
        if a > 0 { ModUnique(a, a, 1, 0); }
      }
      (a, 1, 0)
    else
      var r := Egcd(b, a % b);
      BezoutStep(a, b, r.0, r.1, r.2);
      (r.0, r.2, r.1 - (a / b) * r.2)
  }

  lemma BezoutStep(a: nat, b: nat, g: int, s: int, t: int)
    requires b > 0 && g == b * s + (a % b) * t
    requires g > 0 && Divides(g, b) && Divides(g, a % b)
    ensures g == a * t + b * (s - (a / b) * t)
    ensures Divides(g, a)
  {
    var q, r := a / b, a % b;
    assert a == q * b + r;
    assert g == b * s + (a - q * b) * t;
    DividesCombination(g, b, r, q, 1);
    assert b * q + r * 1 == a;
  }

  /** Every common divisor divides the gcd: it is the greatest one. */
  lemma CommonDivisor(d: int, a: nat, b: nat)
    requires d > 0 && Divides(d, a) && Divides(d, b)
    ensures Divides(d, Egcd(a, b).0)
  {
    var r := Egcd(a, b);
    DividesCombination(d, a, b, r.1, r.2);
  }

  /** A number strictly between 0 and a prime is coprime to it. */
  lemma CoprimeToPrime(a: int, p: int)
    requires IsPrime(p) && 0 < a < p
    ensures Egcd(a, p).0 == 1
  {
    var g := Egcd(a, p).0;
    DivisorAtMost(g, p);
    if g == p {
      ModUnique(a, p, 0, a);
    }
  }

  /** `pow(x, -1, p)`: the inverse in [0, p), or None where Python raises
      ValueError ("base is not invertible for the given modulus"). */
  function ModInverse(x: int, p: int): (r: Option<int>)
    requires p >= 2
    ensures r.Some? ==> 0 <= r.value < p && (x * r.value) % p == 1
  {
    var e := Egcd(x % p, p);
    if e.0 == 1 then
      BezoutInverse(x, p, e.1, e.2);
      Some(e.1 % p)
    else None
  }

  lemma BezoutInverse(x: int, p: int, s: int, t: int)
    requires p >= 2 && (x % p) * s + p * t == 1
    ensures (x * (s % p)) % p == 1
  {
    ModMod(x, p);
    ModMod(s, p);
    MulCongruent(x, x % p, s % p, s, p);
    assert (x % p) * s == (-t) * p + 1;
    ModUnique((x % p) * s, p, -t, 1);
  }

  /** When Python raises, nothing is an inverse. */
  lemma NoInverse(x: int, p: int, y: int)
    requires p >= 2 && ModInverse(x, p).None?
    ensures (x * y) % p != 1
  {
    var g := Egcd(x % p, p).0;
    if (x * y) % p == 1 {
      ModMod(x, p);
      MulCongruent(x % p, x, y, y, p);
      assert (x % p) * y == ((x % p) * y / p) * p + 1;
      DividesCombination(g, x % p, p, y, -((x % p) * y / p));
      assert (x % p) * y + p * (-((x % p) * y / p)) == 1;
      DivisorAtMost(g, 1);
    }
  }

  /** The inverse is unique: any y in [0, p) with x*y = 1 is the one. */
  lemma InverseUnique(x: int, p: int, y: int)
    requires p >= 2 && 0 <= y < p && (x * y) % p == 1
    ensures ModInverse(x, p) == Some(y)
  {
    if ModInverse(x, p).None? {
      NoInverse(x, p, y);
    } else {
      var v := ModInverse(x, p).value;
      // v = v * (x * y) = (v * x) * y = y, mod p
      ModUnique(1, p, 0, 1);
      MulCongruent(v, v, x * y, 1, p);
      assert v * (x * y) == (x * v) * y;
      MulCongruent(x * v, 1, y, y, p);
      ModUnique(v, p, 0, v);
      ModUnique(y, p, 0, y);
    }
  }

  /** Euclid's lemma. */
  lemma Euclid(a: int, b: int, p: int)
    requires IsPrime(p) && (a * b) % p == 0
    ensures a % p == 0 || b % p == 0
  {
    if a % p != 0 {
      var a' := a % p;
      CoprimeToPrime(a', p);
      var e := Egcd(a', p);
      assert a' * e.1 + p * e.2 == 1;
      assert b == (a' * b) * e.1 + p * (b * e.2);
      ModMod(a, p);
      MulCongruent(a', a, b, b, p);
      assert Divides(p, a' * b);
      assert Divides(p, p) by { ModUnique(p, p, 1, 0); }
      DividesCombination(p, a' * b, p, e.1, b * e.2);
    }
  }

  /** No two non-zero residues of a prime multiply to 0. */
  lemma NoZeroDivisors(a: int, b: int, p: int)
    requires IsPrime(p) && 0 < a < p && 0 < b < p
    ensures (a * b) % p != 0
  {
    ModUnique(a, p, 0, a);
    ModUnique(b, p, 0, b);
    if (a * b) % p == 0 {
      Euclid(a, b, p);
    }
  }

  /** Over a prime modulus, x has an inverse exactly when it is not 0. */
  lemma PrimeInverse(x: int, p: int)
    requires IsPrime(p)
    ensures ModInverse(x, p).Some? <==> x % p != 0
  {
    if x % p != 0 {
      CoprimeToPrime(x % p, p);
    } else if ModInverse(x, p).Some? {
      var v := ModInverse(x, p).value;
      MulCongruent(x, 0, v, v, p);
    }
  }

  /** A power of a number p does not divide is not divisible by p. */
  lemma {:induction false} PowNonZero(x: int, e: nat, p: int)
    requires IsPrime(p) && x % p != 0
    ensures PowMod(x, e, p) != 0
    decreases e
  {
    if e == 0 {
      ModUnique(1, p, 0, 1);
    } else {
      PowNonZero(x, e - 1, p);
      if PowMod(x, e, p) == 0 {
        Euclid(x, Numerals.Pow(x, e - 1), p);
      }
    }
  }

  /** The square roots of 1 modulo a prime are 1 and p - 1. */
  lemma SquareRootsOfOne(y: int, p: int)
    requires IsPrime(p) && 0 <= y < p && (y * y) % p == 1
    ensures y == 1 || y == p - 1
  {
    SquareOneFactors(y, p);
    Euclid(y - 1, y + 1, p);
    if (y - 1) % p == 0 {
      ZeroResidueInRange(y - 1, p);
    } else if y + 1 < p {
      ZeroResidueInRange(y + 1, p);
    }
  }

  /** y * y = 1 makes (y - 1) * (y + 1) a multiple of p. */
  lemma SquareOneFactors(y: int, p: int)
    requires p > 1 && (y * y) % p == 1
    ensures ((y - 1) * (y + 1)) % p == 0
  {
    assert (y - 1) * (y + 1) == y * y - 1;
    ModUnique(1, p, 0, 1);
    ModSub(y * y, 1, p);
  }

  /** The only multiple of p strictly between -p and p is 0. */
  lemma ZeroResidueInRange(v: int, p: int)
    requires p > 1 && -p < v < p && v % p == 0
    ensures v == 0
  {
    if v < 0 {
      ModUnique(v, p, -1, v + p);
    } else {
      ModUnique(v, p, 0, v);
    }
  }

  // ---------------------------------------------------------------------
  // Congruences, written Divides(p, u - v): they are kept by sums,
  // differences and products, and chain.

  lemma CongTrans(p: int, u: int, v: int, w: int)
    requires p > 0 && Divides(p, u - v) && Divides(p, v - w)
    ensures Divides(p, u - w) && Divides(p, w - u)
  {
    DividesSum(p, u - v, v - w);
    DividesSum(p, u - w, 0) by { DividesZero(p); }
  }

  lemma CongSym(p: int, u: int, v: int)
    requires p > 0 && Divides(p, u - v)
    ensures Divides(p, v - u) && Divides(p, u - u)
  {
    DividesSum(p, u - v, 0) by { DividesZero(p); }
    DividesZero(p);
  }

  lemma CongAdd(p: int, u: int, u': int, v: int, v': int)
    requires p > 0 && Divides(p, u - u') && Divides(p, v - v')
    ensures Divides(p, (u + v) - (u' + v')) && Divides(p, (u - v) - (u' - v'))
  {
    DividesSum(p, u - u', v - v');
    assert (u + v) - (u' + v') == (u - u') + (v - v');
    assert (u - v) - (u' - v') == (u - u') - (v - v');
  }

  lemma CongMul(p: int, u: int, u': int, v: int, v': int)
    requires p > 0 && Divides(p, u - u') && Divides(p, v - v')
    ensures Divides(p, u * v - u' * v')
  {
    assert u * v - u' * v' == (u - u') * v + u' * (v - v');
    DividesScaled(p, u - u', v);
    DividesScaled(p, v - v', u');
    DividesSum(p, (u - u') * v, u' * (v - v'));
  }

  /** Euclid's lemma, as divisibility. */
  lemma PrimeFactor(p: int, u: int, v: int)
    requires IsPrime(p) && Divides(p, u * v)
    ensures Divides(p, u) || Divides(p, v)
  {
    Euclid(u, v, p);
  }
}
