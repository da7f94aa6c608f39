/** `Field.sqrt` of libtls13/script/generate-ec-test-data.py (lines 43-89),
    a Tonelli-Shanks square root. The random choice of `z` (lines 58-62) is
    a parameter. The inner `for` loop is modelled both as written and as the
    algorithm intends; see the findings in the README. */
module SquareRoot {
  import opened Results
  import opened Modular
  import opened PrimeField
  import FieldElements
  import Numerals

  /** Which inner loop: the script's, or the intended one. */
  datatype Variant = AsWritten | Corrected

  /** p - 1 = q * 2^s with q odd: what the first `while` loop computes. */
  function TwoAdic(n: nat): (r: (nat, nat))
    requires n > 0
    ensures r.0 % 2 == 1 && n == r.0 * Numerals.Bit(r.1)
    decreases n
  {
    if n % 2 == 1 then (n, 0)
    else
      var r := TwoAdic(n / 2);
      assert n == r.0 * Numerals.Bit(r.1) * 2;
      assert r.0 * Numerals.Bit(r.1 + 1) == r.0 * Numerals.Bit(r.1) * 2;
      (r.0, r.1 + 1)
  }

  /** y squared k times with `pow(·, 2, p)`: y^(2^k). */
  function Squarings(F: Field, y: int, k: nat): int
  {
    if k == 0 then y else PrimeField.Pow(F, Squarings(F, y, k - 1), 2)
  }

  /** The `for i in range(i, m)` loop, from index i with `tt` in hand: the
      script tests `tt == 1` and then squares; the intended loop squares and
      then tests. The index it breaks at, or None for its `else`. */
  function Scan(F: Field, tt: int, i: nat, m: nat, v: Variant): (r: Option<nat>)
    ensures r.Some? ==> i <= r.value < m
    decreases m - i
  {
    if i >= m then None
    else if v == AsWritten then
      if tt == 1 then Some(i) else Scan(F, PrimeField.Pow(F, tt, 2), i + 1, m, v)
    else
      var sq := PrimeField.Pow(F, tt, 2);
      if sq == 1 then Some(i) else Scan(F, sq, i + 1, m, v)
  }

  /** The `while not 0 <= t <= 1` loop. */
  function Descend(F: Field, m: nat, c: int, t: int, r: int, v: Variant): Option<int>
    decreases m
  {
    if 0 <= t <= 1 then (if t == 0 then Some(0) else Some(r))
    else
      match Scan(F, t, 1, m, v)
      case None => None
      case Some(i) =>
        var b := PrimeField.Pow(F, c, Numerals.Bit(m - i - 1));
        var c' := PrimeField.Pow(F, b, 2);
        Descend(F, i, c', Mul(F, t, c'), Mul(F, r, b), v)
  }

  /** `sqrt(x)`, given the z the rejection loop settles on. */
  function Root(F: Field, x: int, z: int, v: Variant): Option<int>
    requires x == 0 || F.p % 2 == 1
  {
    if x == 0 then Some(x)
    else if Legendre(F, x) != 1 then None
    else
      var qs := TwoAdic(F.p - 1);
      var q, s := qs.0, qs.1;
      Descend(F, s, PrimeField.Pow(F, z, q), PrimeField.Pow(F, x, q), PrimeField.Pow(F, x, (q + 1) / 2), v)
  }

  // ---------------------------------------------------------------------
  // The loops.

  /** `sqrt`, with its loops. */
  method Sqrt(F: Field, x: int, z: int, v: Variant) returns (root: Option<int>)
    requires x == 0 || F.p % 2 == 1
    ensures root == Root(F, x, z, v)
  {
    if x == 0 {
      return Some(x);
    } else if Legendre(F, x) != 1 {
      return None;
    }
    var q, s := OddPart(F.p - 1);
    var m, c, t, r := s, PrimeField.Pow(F, z, q), PrimeField.Pow(F, x, q), PrimeField.Pow(F, x, (q + 1) / 2);
    assert Descend(F, m, c, t, r, v) == Root(F, x, z, v);
    while !(0 <= t <= 1)
      invariant Descend(F, m, c, t, r, v) == Root(F, x, z, v)
      decreases m
    {
      var found := FindIndex(F, t, m, v);
      if found.None? {
        return None;
      }
      var i := found.value;
      var b := PrimeField.Pow(F, c, Numerals.Bit(m - i - 1));
      m := i;
      c := PrimeField.Pow(F, b, 2);
      t := Mul(F, t, c);
      r := Mul(F, r, b);
    }
    if t == 0 {
      return Some(0);
    }
    return Some(r);
  }

  /** The first loop: dividing out the factors 2 of n. */
  method OddPart(n: nat) returns (q: nat, s: nat)
    requires n > 0
    ensures (q, s) == TwoAdic(n)
  {
    q, s := n, 0;
    while q % 2 == 0
      invariant q > 0 && TwoAdic(n) == (TwoAdic(q).0, TwoAdic(q).1 + s)
      decreases q
    {
      q := q / 2;
      s := s + 1;
    }
  }

  /** The `for ... else` loop. */
  method FindIndex(F: Field, t: int, m: nat, v: Variant) returns (found: Option<nat>)
    ensures found == Scan(F, t, 1, m, v)
  {
    var tt := t;
    var i: nat := 1;
    while i < m
      invariant 1 <= i && Scan(F, tt, i, m, v) == Scan(F, t, 1, m, v)
      decreases m - i
    {
      if v == AsWritten {
        if tt == 1 {
          return Some(i);
        }
        tt := PrimeField.Pow(F, tt, 2);
      } else {
        tt := PrimeField.Pow(F, tt, 2);
        if tt == 1 {
          return Some(i);
        }
      }
      i := i + 1;
    }
    return None;
  }

  // ---------------------------------------------------------------------
  // Small facts about squarings.

  lemma PowTwo(y: int)
    ensures Numerals.Pow(y, 2) == y * y
  {
    assert Numerals.Pow(y, 2) == y * Numerals.Pow(y, 1);
  }

  lemma SquaringsRange(F: Field, y: int, k: nat)
    requires 0 <= y < F.p
    ensures 0 <= Squarings(F, y, k) < F.p
  {
  }

  lemma {:induction false} SquaringsAdd(F: Field, y: int, j: nat, k: nat)
    ensures Squarings(F, Squarings(F, y, j), k) == Squarings(F, y, j + k)
    decreases k
  {
    if k > 0 {
      SquaringsAdd(F, y, j, k - 1);
    }
  }

  /** Squaring k times is raising to the power 2^k. */
  lemma {:induction false} SquaringsIsPower(F: Field, y: int, k: nat)
    requires 0 <= y < F.p
    ensures Squarings(F, y, k) == PrimeField.Pow(F, y, Numerals.Bit(k))
    decreases k
  {
    if k == 0 {
      assert Numerals.Pow(y, 1) == y;
      ModUnique(y, F.p, 0, y);
    } else {
      SquaringsIsPower(F, y, k - 1);
      var e := Numerals.Bit(k - 1);
      PowModPow(y, e, 2, F.p);
      assert Numerals.Bit(k) == e * 2;
    }
  }

  lemma SquareOfProduct(F: Field, u: int, w: int)
    ensures PrimeField.Pow(F, Mul(F, u, w), 2) == Mul(F, PrimeField.Pow(F, u, 2), PrimeField.Pow(F, w, 2))
  {
    var p := F.p;
    var m := Mul(F, u, w);
    PowTwo(m);
    PowTwo(u);
    PowTwo(w);
    ModMod(u * w, p);
    MulCongruent(m, u * w, m, u * w, p);
    assert (u * w) * (u * w) == (u * u) * (w * w);
    ModMul(u * u, w * w, p);
  }

  lemma {:induction false} SquaringsMul(F: Field, u: int, w: int, k: nat)
    requires 0 <= u < F.p && 0 <= w < F.p
    ensures Squarings(F, Mul(F, u, w), k) == Mul(F, Squarings(F, u, k), Squarings(F, w, k))
    decreases k
  {
    if k > 0 {
      SquaringsMul(F, u, w, k - 1);
      SquareOfProduct(F, Squarings(F, u, k - 1), Squarings(F, w, k - 1));
    } else {
      ModUnique(Mul(F, u, w), F.p, 0, Mul(F, u, w));
    }
  }

  lemma MinusOneSquared(p: int)
    requires p >= 2
    ensures ((p - 1) * (p - 1)) % p == 1
  {
    assert (p - 1) * (p - 1) == (p - 2) * p + 1;
    ModUnique((p - 1) * (p - 1), p, p - 2, 1);
  }

  /** The power of 0 to a positive exponent is 0. */
  lemma {:induction false} PowOfZero(x: int, e: nat, p: int)
    requires p > 0 && x % p == 0 && e >= 1
    ensures PowMod(x, e, p) == 0
    decreases e
  {
    if e == 1 {
      assert Numerals.Pow(x, 1) == x;
    } else {
      PowOfZero(x, e - 1, p);
      ModMul(x, Numerals.Pow(x, e - 1), p);
    }
  }

  /** A multiple of p has Legendre symbol 0. */
  lemma ZeroIsNoResidue(F: Field, x: int)
    requires F.p % 2 == 1
    ensures x % F.p == 0 ==> Legendre(F, x) == 0
  {
    if x % F.p == 0 {
      assert (F.p - 1) / 2 >= 1;
      PowOfZero(x, (F.p - 1) / 2, F.p);
    }
  }

  // ---------------------------------------------------------------------
  // Soundness: whichever inner loop, a root that comes back is one.

  /** One round of the outer loop keeps r^2 = x*t. */
  lemma StepKeepsRoot(p: int, x: int, t: int, r: int, b: int)
    requires p > 0 && (r * r) % p == (x * t) % p
    ensures (((r * b) % p) * ((r * b) % p)) % p == (x * ((t * ((b * b) % p)) % p)) % p
  {
    var rb := r * b;
    ModMod(rb, p);
    MulCongruent(rb % p, rb, rb % p, rb, p);
    assert rb * rb == (r * r) * (b * b);
    MulCongruent(r * r, x * t, b * b, b * b, p);
    var bb := (b * b) % p;
    ModMod(b * b, p);
    MulCongruent(t, t, bb, b * b, p);
    ModMod(t * bb, p);
    MulCongruent(x, x, (t * bb) % p, t * bb, p);
    MulCongruent(x, x, t * bb, t * (b * b), p);
    assert x * (t * (b * b)) == (x * t) * (b * b);
  }

  lemma {:induction false} DescendSound(F: Field, x: int, m: nat, c: int, t: int, r: int, v: Variant)
    requires IsPrime(F.p) && 0 < t < F.p && 0 < c < F.p
    requires (r * r) % F.p == (x * t) % F.p
    ensures Descend(F, m, c, t, r, v).Some? ==> Mul(F, Descend(F, m, c, t, r, v).value, Descend(F, m, c, t, r, v).value) == ToElement(F, x)
    decreases m
  {
    if t != 1 {
      match Scan(F, t, 1, m, v)
      case None =>
      case Some(i) =>
        var b := PrimeField.Pow(F, c, Numerals.Bit(m - i - 1));
        var c' := PrimeField.Pow(F, b, 2);
        RoundNonZero(F, c, t, Numerals.Bit(m - i - 1));
        RoundRoot(F, x, c, t, r, Numerals.Bit(m - i - 1));
        DescendSound(F, x, i, c', Mul(F, t, c'), Mul(F, r, b), v);
    }
  }

  /** One round of the outer loop, with b = c^e, keeps c and t non-zero... */
  lemma RoundNonZero(F: Field, c: int, t: int, e: nat)
    requires IsPrime(F.p) && 0 < t < F.p && 0 < c < F.p
    ensures var c' := PrimeField.Pow(F, PrimeField.Pow(F, c, e), 2);
      0 < c' && 0 < Mul(F, t, c')
  {
    var p := F.p;
    var b := PrimeField.Pow(F, c, e);
    var c' := PrimeField.Pow(F, b, 2);
    ModUnique(c, p, 0, c);
    PowNonZero(c, e, p);
    assert b != 0;
    ModUnique(b, p, 0, b);
    PowNonZero(b, 2, p);
    assert c' != 0;
    NoZeroDivisors(t, c', p);
  }

  /** ... and r^2 = x*t. */
  lemma RoundRoot(F: Field, x: int, c: int, t: int, r: int, e: nat)
    requires (r * r) % F.p == (x * t) % F.p
    ensures var b := PrimeField.Pow(F, c, e);
      var c' := PrimeField.Pow(F, b, 2);
      (Mul(F, r, b) * Mul(F, r, b)) % F.p == (x * Mul(F, t, c')) % F.p
  {
    var b := PrimeField.Pow(F, c, e);
    PowTwo(b);
    StepKeepsRoot(F.p, x, t, r, b);
  }

  /** What the set-up before the outer loop establishes. */
  lemma SetUp(F: Field, x: int, z: int)
    requires IsPrime(F.p) && F.p % 2 == 1 && x != 0 && Legendre(F, x) == 1 && 2 <= z < F.p
    ensures var q := TwoAdic(F.p - 1).0;
      var t, r := PrimeField.Pow(F, x, q), PrimeField.Pow(F, x, (q + 1) / 2);
      0 < t && 0 < PrimeField.Pow(F, z, q) && (r * r) % F.p == (x * t) % F.p
  {
    var p := F.p;
    var q := TwoAdic(p - 1).0;
    ZeroIsNoResidue(F, x);
    PowNonZero(x, q, p);
    assert PrimeField.Pow(F, x, q) == PowMod(x, q, p);
    ModUnique(z, p, 0, z);
    PowNonZero(z, q, p);
    assert PrimeField.Pow(F, z, q) == PowMod(z, q, p);
    HalfPowerSquared(p, x, q);
    assert PrimeField.Pow(F, x, (q + 1) / 2) == PowMod(x, (q + 1) / 2, p);
  }

  /** With q odd, (x^((q+1)/2))^2 = x * x^q. */
  lemma HalfPowerSquared(p: int, x: int, q: nat)
    requires p > 0 && q % 2 == 1
    ensures (PowMod(x, (q + 1) / 2, p) * PowMod(x, (q + 1) / 2, p)) % p == (x * PowMod(x, q, p)) % p
  {
    var r, t := PowMod(x, (q + 1) / 2, p), PowMod(x, q, p);
    PowTwo(r);
    PowModPow(x, (q + 1) / 2, 2, p);
    assert (q + 1) / 2 * 2 == 1 + q;
    PowModAdd(x, 1, q, p);
    assert Numerals.Pow(x, 1) == x;
    ModMod(x, p);
    MulCongruent(x % p, x, t, t, p);
  }

  /** Any square root `sqrt` returns is one, whichever inner loop is used. */
  lemma RootSound(F: Field, x: int, z: int, v: Variant)
    requires IsPrime(F.p) && F.p % 2 == 1 && 2 <= z < F.p
    ensures Root(F, x, z, v).Some? ==> Mul(F, Root(F, x, z, v).value, Root(F, x, z, v).value) == ToElement(F, x)
  {
    if x == 0 {
      assert Mul(F, 0, 0) == 0;
    } else if Legendre(F, x) == 1 {
      var q, s := TwoAdic(F.p - 1).0, TwoAdic(F.p - 1).1;
      assert Root(F, x, z, v) == Descend(F, s, PrimeField.Pow(F, z, q), PrimeField.Pow(F, x, q), PrimeField.Pow(F, x, (q + 1) / 2), v);
      DescentSound(F, x, z, q, s, v);
    }
  }

  /** The descent as `sqrt` starts it returns only roots. */
  lemma DescentSound(F: Field, x: int, z: int, q: nat, s: nat, v: Variant)
    requires IsPrime(F.p) && F.p % 2 == 1 && 2 <= z < F.p && x != 0 && Legendre(F, x) == 1
    requires (q, s) == TwoAdic(F.p - 1)
    ensures var D := Descend(F, s, PrimeField.Pow(F, z, q), PrimeField.Pow(F, x, q), PrimeField.Pow(F, x, (q + 1) / 2), v);
      D.Some? ==> Mul(F, D.value, D.value) == ToElement(F, x)
  {
    SetUp(F, x, z);
    DescendSound(F, x, s, PrimeField.Pow(F, z, q), PrimeField.Pow(F, x, q), PrimeField.Pow(F, x, (q + 1) / 2), v);
  }

  // ---------------------------------------------------------------------
  // The two defects, on concrete inputs.

  /** The inner loop as written tests t^(2^(i-1)) instead of t^(2^i): mod 13,
      4 = 2 * 2 is a residue, yet `sqrt(4)` returns None whatever z is. */
  lemma AsWrittenMissesRoot(z: int)
    ensures Mul(Field(13), 2, 2) == 4 && Legendre(Field(13), 4) == 1
    ensures Root(Field(13), 4, z, AsWritten) == None
  {
    var F := Field(13);
    assert Numerals.Pow(4, 6) == 4096;
    assert TwoAdic(12) == (3, 2);
    assert Numerals.Pow(4, 3) == 64;
    assert PrimeField.Pow(F, 4, 3) == 12;
    assert Numerals.Pow(12, 2) == 144;
    assert Scan(F, 12, 1, 2, AsWritten) == None;
  }

  /** The intended loop finds it once z is a non-residue (z = 2 mod 13). */
  lemma CorrectedFindsThatRoot()
    ensures Root(Field(13), 4, 2, Corrected) == Some(11)
  {
    var F := Field(13);
    assert Numerals.Pow(4, 6) == 4096;
    assert TwoAdic(12) == (3, 2);
    assert Numerals.Pow(4, 3) == 64;
    assert Numerals.Pow(12, 2) == 144;
    assert Scan(F, 12, 1, 2, Corrected) == Some(1);
    assert Numerals.Pow(2, 3) == 8;
    assert Numerals.Pow(8, 2) == 64;
    assert Numerals.Pow(4, 2) == 16;
    assert Descend(F, 1, 12, 1, 11, Corrected) == Some(11);
  }

  /** The rejection loop keeps a z whose Legendre symbol is 1, a residue:
      mod 17, z = 2 is accepted and 2 = 6 * 6 is a residue, yet even the
      intended inner loop returns None. */
  lemma ResidueZMisses()
    ensures Legendre(Field(17), 2) == 1 && Mul(Field(17), 6, 6) == 2
    ensures Root(Field(17), 2, 2, Corrected) == None
  {
    var F := Field(17);
    assert Numerals.Pow(2, 8) == 256;
    assert TwoAdic(16) == (1, 4);
    assert Numerals.Pow(2, 1) == 2;
    assert Numerals.Pow(2, 2) == 4;
    assert Numerals.Pow(4, 2) == 16;
    assert Numerals.Pow(16, 2) == 256;
    assert Scan(F, 2, 1, 4, Corrected) == Some(3);
    assert Numerals.Pow(8, 2) == 64;
    assert Numerals.Pow(13, 2) == 169;
    assert Scan(F, 8, 1, 3, Corrected) == None;
    assert Descend(F, 3, 4, 8, 4, Corrected) == None;
  }

  // ---------------------------------------------------------------------
  // Completeness of the intended algorithm. c keeps order exactly 2^m
  // (c^(2^(m-1)) = -1) and the order of t divides 2^(m-1).

  /** The intended scan finds the least i with t^(2^i) = 1. */
  lemma {:induction false} ScanFinds(F: Field, t: int, i: nat, m: nat)
    requires 1 <= i < m && Squarings(F, t, m - 1) == 1 && Squarings(F, t, i - 1) != 1
    ensures Scan(F, Squarings(F, t, i - 1), i, m, Corrected).Some?
    ensures var j := Scan(F, Squarings(F, t, i - 1), i, m, Corrected).value;
      Squarings(F, t, j) == 1 && Squarings(F, t, j - 1) != 1
    decreases m - i
  {
    var sq := PrimeField.Pow(F, Squarings(F, t, i - 1), 2);
    assert sq == Squarings(F, t, i);
    if sq != 1 {
      ScanFinds(F, t, i + 1, m);
    }
  }

  /** Below the least i with t^(2^i) = 1 sits -1. */
  lemma LastBeforeOne(F: Field, t: int, i: nat)
    requires IsPrime(F.p) && 0 <= t < F.p && i >= 1
    requires Squarings(F, t, i) == 1 && Squarings(F, t, i - 1) != 1
    ensures Squarings(F, t, i - 1) == F.p - 1
  {
    var y := Squarings(F, t, i - 1);
    SquaringsRange(F, t, i - 1);
    PowTwo(y);
    SquareRootsOfOne(y, F.p);
  }

  /** The new c = b^2 = c^(2^(m-i)) has order exactly 2^i. */
  lemma RoundKeepsOrder(F: Field, m: nat, c: int, i: nat)
    requires 0 <= c < F.p && 1 <= i < m && Squarings(F, c, m - 1) == F.p - 1
    ensures Squarings(F, PrimeField.Pow(F, PrimeField.Pow(F, c, Numerals.Bit(m - i - 1)), 2), i - 1) == F.p - 1
  {
    SquaringsIsPower(F, c, m - i - 1);
    var c' := PrimeField.Pow(F, PrimeField.Pow(F, c, Numerals.Bit(m - i - 1)), 2);
    assert c' == Squarings(F, c, m - i);
    SquaringsAdd(F, c, m - i, i - 1);
  }

  /** ... and t * c' has order dividing 2^(i-1). */
  lemma RoundHalvesOrder(F: Field, t: int, c': int, i: nat)
    requires 0 <= t < F.p && 0 <= c' < F.p && i >= 1
    requires Squarings(F, t, i - 1) == F.p - 1 && Squarings(F, c', i - 1) == F.p - 1
    ensures Squarings(F, Mul(F, t, c'), i - 1) == 1
  {
    SquaringsMul(F, t, c', i - 1);
    MinusOneSquared(F.p);
  }

  lemma {:induction false} DescendFinds(F: Field, m: nat, c: int, t: int, r: int)
    requires IsPrime(F.p) && 0 < t < F.p && 0 < c < F.p && m >= 1
    requires Squarings(F, c, m - 1) == F.p - 1 && Squarings(F, t, m - 1) == 1
    ensures Descend(F, m, c, t, r, Corrected).Some?
    decreases m
  {
    if t != 1 {
      ScanFinds(F, t, 1, m);
      var i := Scan(F, t, 1, m, Corrected).value;
      var b := PrimeField.Pow(F, c, Numerals.Bit(m - i - 1));
      var c' := PrimeField.Pow(F, b, 2);
      LastBeforeOne(F, t, i);
      RoundNonZero(F, c, t, Numerals.Bit(m - i - 1));
      RoundKeepsOrder(F, m, c, i);
      RoundHalvesOrder(F, t, c', i);
      DescendFinds(F, i, c', Mul(F, t, c'), Mul(F, r, b));
    }
  }

  lemma TwiceProduct(q: int, b: int)
    ensures q * (2 * b) == 2 * (q * b)
  {
  }

  /** With p - 1 = q * 2^s, squaring y^q s - 1 times gives the Legendre
      symbol of y. */
  lemma StartOrder(F: Field, y: int, q: nat, s: nat)
    requires F.p % 2 == 1 && s >= 1 && F.p - 1 == q * Numerals.Bit(s)
    ensures Squarings(F, PrimeField.Pow(F, y, q), s - 1) == Legendre(F, y)
  {
    var b := Numerals.Bit(s - 1);
    var p: int, h := F.p, q * b;
    SquaringsIsPower(F, PrimeField.Pow(F, y, q), s - 1);
    PowModPow(y, q, b, p);
    assert Numerals.Bit(s) == 2 * b;
    TwiceProduct(q, b);
    assert (p - 1) / 2 == h;
    assert Legendre(F, y) == PrimeField.Pow(F, y, h);
  }

  /** With a non-residue z, the intended algorithm finds a root of every
      residue; by RootSound it squares to x. */
  lemma CorrectedFindsRoot(F: Field, x: int, z: int)
    requires IsPrime(F.p) && F.p % 2 == 1 && Legendre(F, x) == 1
    requires 2 <= z < F.p && Legendre(F, z) == F.p - 1
    ensures Root(F, x, z, Corrected).Some?
  {
    if x != 0 {
      var qs := TwoAdic(F.p - 1);
      var q, s := qs.0, qs.1;
      assert s >= 1;
      SetUp(F, x, z);
      StartOrder(F, z, q, s);
      StartOrder(F, x, q, s);
      DescendFinds(F, s, PrimeField.Pow(F, z, q), PrimeField.Pow(F, x, q), PrimeField.Pow(F, x, (q + 1) / 2));
    }
  }

  /** For p = 3 (mod 4), as for secp384r1, s = 1 and the outer loop never
      runs: whatever z and inner loop, `sqrt` returns x^((p+1)/4), a root.
      Primality is not needed. */
  lemma ThreeModFour(F: Field, x: int, z: int, v: Variant)
    requires F.p % 4 == 3 && 0 < x < F.p && Legendre(F, x) == 1
    ensures Root(F, x, z, v) == Some(PrimeField.Pow(F, x, (F.p + 1) / 4))
    ensures Mul(F, PrimeField.Pow(F, x, (F.p + 1) / 4), PrimeField.Pow(F, x, (F.p + 1) / 4)) == x
  {
    var p: int := F.p;
    var q: nat := (p - 1) / 2;
    ThreeModFourOddPart(p, q);
    HalfPowerSquared(p, x, q);
    ModUnique(x, p, 0, x);
  }

  /** p - 1 = 2 q with q odd, and (q + 1) / 2 = (p + 1) / 4. */
  lemma ThreeModFourOddPart(p: int, q: nat)
    requires p % 4 == 3 && p > 0 && q == (p - 1) / 2
    ensures q % 2 == 1 && TwoAdic(p - 1) == (q, 1) && (q + 1) / 2 == (p + 1) / 4
  {
    ThreeModFourHalves(p, q);
    TwoAdicOdd(q);
    TwoAdicEven(p - 1, q);
  }

  lemma ThreeModFourHalves(p: int, q: nat)
    requires p % 4 == 3 && p > 0 && q == (p - 1) / 2
    ensures q % 2 == 1 && p - 1 == 2 * q && (q + 1) / 2 == (p + 1) / 4
  {
    var m := p / 4;
    assert p == 4 * m + 3;
  }

  lemma TwoAdicOdd(n: nat)
    requires n % 2 == 1
    ensures TwoAdic(n) == (n, 0)
  {
  }

  lemma TwoAdicEven(n: nat, h: nat)
    requires n > 0 && n == 2 * h
    ensures TwoAdic(n) == (TwoAdic(h).0, TwoAdic(h).1 + 1)
  {
  }

  // ---------------------------------------------------------------------
  // `FieldElement.sqrt`.

  /** The root, coerced into the element's field. `FieldElement.sqrt`
      runs the script's own loop, `AsWritten`; `Corrected` is the intended
      algorithm. */
  function ElemSqrt(e: FieldElements.Elem, z: int, v: Variant): Option<FieldElements.Elem>
    requires e.x == 0 || e.field.p % 2 == 1
  {
    match Root(e.field, e.x, z, v)
    case None => None
    case Some(s) => Some(FieldElements.Const(e.field, s))
  }

  /** A root that comes back squares to the element, in either variant.
      One comes back for 0, and for every residue when p = 3 (mod 4),
      whatever the variant and z; with the intended loop, for every residue
      once z is a non-residue. None comes back for a non-zero element whose
      Legendre symbol is not 1. */
  lemma ElemSqrtSpec(e: FieldElements.Elem, z: int, v: Variant)
    requires FieldElements.Canonical(e) && IsPrime(e.field.p) && e.field.p % 2 == 1
    requires 2 <= z < e.field.p
    ensures ElemSqrt(e, z, v).Some? ==> FieldElements.Times(ElemSqrt(e, z, v).value, ElemSqrt(e, z, v).value) == e
    ensures e.x == 0 ==> ElemSqrt(e, z, v).Some?
    ensures e.field.p % 4 == 3 && Legendre(e.field, e.x) == 1 ==> ElemSqrt(e, z, v).Some?
    ensures v == Corrected && Legendre(e.field, e.x) == 1 && Legendre(e.field, z) == e.field.p - 1 ==> ElemSqrt(e, z, v).Some?
    ensures e.x != 0 && Legendre(e.field, e.x) != 1 ==> ElemSqrt(e, z, v).None?
  {
    var F := e.field;
    RootSound(F, e.x, z, v);
    if v == Corrected && Legendre(F, e.x) == 1 && Legendre(F, z) == F.p - 1 {
      CorrectedFindsRoot(F, e.x, z);
    }
    if F.p % 4 == 3 && 0 < e.x && Legendre(F, e.x) == 1 {
      ThreeModFour(F, e.x, z, v);
    }
    if ElemSqrt(e, z, v).Some? {
      ModUnique(e.x, F.p, 0, e.x);
      SquareOfConst(F, Root(F, e.x, z, v).value, e);
    }
  }

  /** `FieldElement(4, Field(13)).sqrt()` finds no root, whatever z the
      rejection loop settles on, although 2 * 2 = 4. */
  lemma ElemSqrtMisses(z: int)
    ensures var four := FieldElements.MakeElem(4, Field(13));
      var two := FieldElements.MakeElem(2, Field(13));
      FieldElements.Times(two, two) == four && ElemSqrt(four, z, AsWritten).None?
  {
    AsWrittenMissesRoot(z);
  }

  /** If r * r = x then the element r squares to the element x. */
  lemma SquareOfConst(F: Field, r: int, e: FieldElements.Elem)
    requires FieldElements.Canonical(e) && e.field == F && Mul(F, r, r) == e.x
    ensures FieldElements.Times(FieldElements.Const(F, r), FieldElements.Const(F, r)) == e
  {
    var s := FieldElements.Const(F, r);
    var t := FieldElements.Times(s, s);
    SquareCongruent(F.p, r, s.x, t.x, e.x);
    FieldElements.SameElem(t, e);
  }

  lemma SquareCongruent(p: int, r: int, s: int, t: int, x: int)
    requires p > 0 && Divides(p, r - s) && Divides(p, s * s - t) && Divides(p, r * r - x)
    ensures Divides(p, t - x)
  {
    assert t - x == (r * r - x) - (s * s - t) - (r - s) * (s + r);
    DividesScaled(p, r - s, s + r);
    DividesSum(p, r * r - x, s * s - t);
    DividesSum(p, (r * r - x) - (s * s - t), (r - s) * (s + r));
  }
}
